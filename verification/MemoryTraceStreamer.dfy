/** Reading a memory trace in chunks of a requested number of accesses. */
module MemoryTraceStreaming {
  import opened Sequences
  import opened MemSetEntries

  /** What one call to the block parser appends, and whether it reports more to come. */
  datatype Block = Block(entries: seq<MemSetEntry>, more: bool)

  function Entries(blocks: seq<Block>): seq<MemSetEntry> {
    if blocks == [] then [] else blocks[0].entries + Entries(blocks[1..])
  }

  /** Only the last block of a source reports the end. */
  ghost predicate EndsOnce(blocks: seq<Block>) {
    forall i :: 0 <= i < |blocks| ==> (blocks[i].more <==> i < |blocks| - 1)
  }

  function BufferedInstances(es: seq<MemSetEntry>): int {
    if |es| > 0 then es[|es| - 1].end - es[0].start + 1 else 0
  }

  function Ends(es: seq<MemSetEntry>): (r: seq<int>)
    ensures |r| == |es|
    ensures forall i :: 0 <= i < |es| ==> r[i] == es[i].end
  {
    seq(|es|, i requires 0 <= i < |es| => es[i].end)
  }

  /** Cutting behind instance `last`: what is returned, and what is kept for the next call. */
  function Cut(es: seq<MemSetEntry>, last: nat): (seq<MemSetEntry>, seq<MemSetEntry>)
    requires AllValid(es)
  {
    var k := LowerBound(Ends(es), last);
    if k == |es| then (es, [])
    else if es[k].end > last && es[k].end - last < es[k].NumInstances() then
      var (kept, rest) := es[k].SplitOffEnd(es[k].end - last);
      (es[..k] + [kept], [rest] + es[k + 1..])
    else (es[..k + 1], es[k + 1..])
  }

  lemma {:induction false} ContiguousSplit(a: seq<MemSetEntry>, b: seq<MemSetEntry>, first: nat)
    requires Contiguous(a + b, first)
    ensures Contiguous(a, first)
    ensures b != [] ==> Contiguous(b, if a == [] then first else a[|a| - 1].end + 1)
  {
    var c := a + b;
    assert forall i | 0 <= i < |a| :: c[i] == a[i];
    assert forall i | 0 <= i < |b| :: c[|a| + i] == b[i];
    if b != [] && a != [] {
      assert c[|a|].start == c[|a| - 1].end + 1;
    }
    forall i | 0 < i < |b|
      ensures b[i].start == b[i - 1].end + 1
    {
      assert c[|a| + i].start == c[|a| + i - 1].end + 1;
    }
  }

  lemma ContiguousJoin(a: seq<MemSetEntry>, b: seq<MemSetEntry>, first: nat)
    requires Contiguous(a, first)
    requires b != [] ==> Contiguous(b, if a == [] then first else a[|a| - 1].end + 1)
    ensures Contiguous(a + b, first)
  {
  }

  /** The straddling entry contains the instance at which the stream is cut. */
  lemma StraddleContains(es: seq<MemSetEntry>, first: nat, last: nat)
    requires Contiguous(es, first) && first <= last && LowerBound(Ends(es), last) < |es|
    ensures var e := es[LowerBound(Ends(es), last)]; e.start <= last <= e.end
  {
    var k := LowerBound(Ends(es), last);
    if k > 0 {
      assert es[k].start == es[k - 1].end + 1;
    }
  }

  /** Cutting loses nothing, keeps the numbering, and ends the first part exactly at `last`. */
  lemma CutConserves(es: seq<MemSetEntry>, first: nat, last: nat)
    requires es != [] && Contiguous(es, first) && first <= last
    ensures var (chunk, rest) := Cut(es, last);
            && chunk != [] && Contiguous(chunk, first) && AllValid(rest)
            && (rest != [] ==> Contiguous(rest, chunk[|chunk| - 1].end + 1))
            && chunk[|chunk| - 1].end == (if es[|es| - 1].end < last then es[|es| - 1].end else last)
            && (rest != [] ==> rest[|rest| - 1].end == es[|es| - 1].end)
            && (rest == [] ==> chunk[|chunk| - 1].end == es[|es| - 1].end)
            && (es[|es| - 1].end <= last ==> rest == [])
            && ExpandAll(chunk) + ExpandAll(rest) == ExpandAll(es)
  {
    hide ExpandAll, LowerBound;
    var k := LowerBound(Ends(es), last);
    if k == |es| {
      ExpandNothing();
    } else {
      StraddleContains(es, first, last);
      CutAt(es, first, k, last);
      if k < |es| - 1 {
        ContiguousSorted(es, first, k, |es| - 1);
      }
    }
  }

  lemma ExpandNothing()
    ensures ExpandAll([]) == []
  {
  }

  lemma CutAt(es: seq<MemSetEntry>, first: nat, k: nat, last: nat)
    requires Contiguous(es, first) && first <= last && k < |es| && k == LowerBound(Ends(es), last)
    requires es[k].start <= last <= es[k].end
    ensures var (chunk, rest) := Cut(es, last);
            && chunk != [] && Contiguous(chunk, first) && chunk[|chunk| - 1].end == last
            && (rest != [] ==> Contiguous(rest, last + 1) && rest[|rest| - 1].end == es[|es| - 1].end)
            && (rest == [] <==> last == es[|es| - 1].end)
            && ExpandAll(chunk) + ExpandAll(rest) == ExpandAll(es)
  {
    hide ExpandAll, LowerBound, Contiguous, Cut, AllValid, MemSetEntry.Expand, MemSetEntry.SplitOffEnd;
    var a, e, b := es[..k], es[k], es[k + 1..];
    AllValidOfContiguous(es, first);
    CutParts(es, k, last);
    PartsContiguous(es, first, k);
    assert es == (a + [e]) + b;
    LastOfParts(es, first, k);
    if e.end > last {
      CutInside(a, e, b, first, last);
    } else {
      ExpandAllConcat(a + [e], b);
    }
  }

  lemma CutParts(es: seq<MemSetEntry>, k: nat, last: nat)
    requires AllValid(es) && k == LowerBound(Ends(es), last) && k < |es| && es[k].start <= last <= es[k].end
    ensures Cut(es, last) ==
            if es[k].end > last then
              var (kept, rest) := es[k].SplitOffEnd(es[k].end - last);
              (es[..k] + [kept], [rest] + es[k + 1..])
            else (es[..k] + [es[k]], es[k + 1..])
  {
    hide LowerBound, MemSetEntry.SplitOffEnd;
    assert es[..k + 1] == es[..k] + [es[k]];
  }

  /** What is behind entry `k` ends where all entries end, after entry `k`. */
  lemma LastOfParts(es: seq<MemSetEntry>, first: nat, k: nat)
    requires Contiguous(es, first) && k < |es|
    ensures k + 1 < |es| ==> es[k + 1..][|es| - k - 2] == es[|es| - 1] && es[k].end < es[|es| - 1].end
  {
    if k + 1 < |es| {
      ContiguousSorted(es, first, k, |es| - 1);
    }
  }

  /** Cutting inside entry `e`. */
  lemma CutInside(a: seq<MemSetEntry>, e: MemSetEntry, b: seq<MemSetEntry>, first: nat, last: nat)
    requires e.Valid() && e.start <= last < e.end && AllValid(a) && AllValid(b)
    requires Contiguous(a + [e], first) && (b != [] ==> Contiguous(b, e.end + 1))
    ensures AllValid((a + [e]) + b)
    ensures var (kept, rest) := e.SplitOffEnd(e.end - last);
            && kept.Valid() && rest.Valid() && kept.end == last && rest.end == e.end
            && AllValid(a + [kept]) && AllValid([rest] + b)
            && Contiguous(a + [kept], first) && Contiguous([rest] + b, last + 1)
            && ExpandAll(a + [kept]) + ExpandAll([rest] + b) == ExpandAll((a + [e]) + b)
  {
    hide ExpandAll, Contiguous, MemSetEntry.Expand, MemSetEntry.SplitOffEnd;
    var (kept, rest) := e.SplitOffEnd(e.end - last);
    SplitEntry(e, last);
    Replaced(a, e, b, first, kept, rest);
    SplitExpands(a, e, b, kept, rest);
  }

  /** An entry split behind instance `last`. */
  lemma SplitEntry(e: MemSetEntry, last: nat)
    requires e.Valid() && e.start <= last < e.end
    ensures var (kept, rest) := e.SplitOffEnd(e.end - last);
            && kept.Valid() && rest.Valid() && kept.start == e.start && kept.end == last && rest.start == last + 1 && rest.end == e.end
            && kept.Expand() + rest.Expand() == e.Expand()
  {
    hide MemSetEntry.Expand;
    SplitConserves(e, e.end - last);
  }

  lemma PartsContiguous(es: seq<MemSetEntry>, first: nat, k: nat)
    requires Contiguous(es, first) && k < |es|
    ensures Contiguous(es[..k] + [es[k]], first) && AllValid(es[..k]) && AllValid(es[k + 1..]) && es[k].Valid() && AllValid(es[..k] + [es[k]])
    ensures es[k + 1..] != [] ==> Contiguous(es[k + 1..], es[k].end + 1)
  {
    assert es == (es[..k] + [es[k]]) + es[k + 1..];
    ContiguousSplit(es[..k] + [es[k]], es[k + 1..], first);
  }

  lemma Replaced(a: seq<MemSetEntry>, e: MemSetEntry, b: seq<MemSetEntry>, first: nat, kept: MemSetEntry, rest: MemSetEntry)
    requires Contiguous(a + [e], first) && (b != [] ==> Contiguous(b, e.end + 1))
    requires kept.Valid() && rest.Valid() && kept.start == e.start && rest.start == kept.end + 1 && rest.end == e.end
    ensures Contiguous(a + [kept], first) && Contiguous([rest] + b, kept.end + 1)
  {
    ContiguousSplit(a, [e], first);
    ContiguousJoin(a, [kept], first);
    ContiguousJoin([rest], b, kept.end + 1);
  }

  lemma SplitExpands(a: seq<MemSetEntry>, e: MemSetEntry, b: seq<MemSetEntry>, kept: MemSetEntry, rest: MemSetEntry)
    requires AllValid(a) && AllValid(b) && e.Valid() && kept.Valid() && rest.Valid()
    requires kept.Expand() + rest.Expand() == e.Expand()
    ensures ExpandAll(a + [kept]) + ExpandAll([rest] + b) == ExpandAll((a + [e]) + b)
  {
    hide ExpandAll;
    calc {
      ExpandAll(a + [kept]) + ExpandAll([rest] + b);
      { ExpandAllConcat(a, [kept]); ExpandAllConcat([rest], b); ExpandAllOne(kept); ExpandAllOne(rest); }
      (ExpandAll(a) + kept.Expand()) + (rest.Expand() + ExpandAll(b));
      (ExpandAll(a) + (kept.Expand() + rest.Expand())) + ExpandAll(b);
      { ExpandAllConcat(a, [e]); ExpandAllOne(e); ExpandAllConcat(a + [e], b); }
      ExpandAll((a + [e]) + b);
    }
  }

  /** Delivering a cut of the buffered entries `es`, with `tail` still unread. */
  lemma DeliverCut(es: seq<MemSetEntry>, tail: seq<MemSetEntry>, first: nat, num: nat)
    requires es != [] && Contiguous(es + tail, first) && num > 0
    requires BufferedInstances(es) < num ==> tail == []
    ensures Contiguous(es, first) && AllValid(es) && es[0].start == first
    ensures var (chunk, rest) := Cut(es, first + num - 1);
            && chunk != [] && Contiguous(chunk, first) && AllValid(rest + tail)
            && Contiguous(rest + tail, first + |ExpandAll(chunk)|)
            && ExpandAll(chunk) + ExpandAll(rest + tail) == ExpandAll(es + tail)
            && |ExpandAll(chunk)| == if num <= |ExpandAll(es + tail)| then num else |ExpandAll(es + tail)|
  {
    hide ExpandAll, LowerBound, Cut, Contiguous;
    var last := first + num - 1;
    ContiguousSplit(es, tail, first);
    ContiguousStart(es, first);
    AllValidOfContiguous(es, first);
    AllValidOfContiguous(es + tail, first);
    CutConserves(es, first, last);
    var (chunk, rest) := Cut(es, last);
    ContiguousLength(chunk, first);
    AllValidOfContiguous(chunk, first);
    ContiguousJoin(rest, tail, chunk[|chunk| - 1].end + 1);
    calc {
      ExpandAll(chunk) + ExpandAll(rest + tail);
      { ExpandAllConcat(rest, tail); }
      ExpandAll(chunk) + (ExpandAll(rest) + ExpandAll(tail));
      (ExpandAll(chunk) + ExpandAll(rest)) + ExpandAll(tail);
      { ExpandAllConcat(es, tail); }
      ExpandAll(es + tail);
    }
    if es[|es| - 1].end < last {
      assert rest + tail == [];
      ExpandNothing();
    }
  }

  /** The stream: entries read but not yet returned, and the source still unread. */
  class MemoryTraceStreamer {
    var remainder: seq<MemSetEntry>
    var source: seq<Block>
    var status: int
    ghost var next: nat      // the number of the next access to be returned

    /** The entries that are still to be returned. */
    ghost function Pending(): seq<MemSetEntry>
      reads this
    {
      remainder + Entries(source)
    }

    ghost predicate Valid()
      reads this
    {
      Contiguous(Pending(), next) && EndsOnce(source) && (status != 0 <==> source != [])
    }

    constructor (source: seq<Block>)
      requires Contiguous(Entries(source), 0) && EndsOnce(source) && source != []
      ensures Valid() && Pending() == Entries(source) && next == 0
    {
      remainder, status, next := [], 1, 0;
      this.source := source;
      new;
      assert Pending() == Entries(source);
    }

    /** One call of the parser: appends a block to the chunk, and reports whether more may come. */
    method ParseBlock(chunk: seq<MemSetEntry>) returns (r: seq<MemSetEntry>)
      requires source != [] && EndsOnce(source)
      modifies this`source, this`status
      ensures r + Entries(source) == chunk + Entries(old(source))
      ensures EndsOnce(source) && (status != 0 <==> source != []) && |source| < |old(source)|
    {
      r := chunk + source[0].entries;
      status := if source[0].more then 1 else 0;
      source := source[1..];
    }

    /** Parses blocks until the chunk holds enough accesses or the source is used up. */
    method Fill(read: seq<MemSetEntry>, numInstances: nat) returns (chunk: seq<MemSetEntry>)
      requires EndsOnce(source) && (status != 0 <==> source != [])
      modifies this`source, this`status
      ensures chunk + Entries(source) == read + Entries(old(source))
      ensures EndsOnce(source) && (status != 0 <==> source != [])
      ensures BufferedInstances(chunk) < numInstances ==> source == []
    {
      hide Entries;
      chunk := read;
      while BufferedInstances(chunk) < numInstances && status != 0
        invariant chunk + Entries(source) == read + Entries(old(source))
        invariant EndsOnce(source) && (status != 0 <==> source != [])
        decreases |source|
      {
        chunk := ParseBlock(chunk);
      }
    }

    /**
     The next `numInstances` accesses, or all that are left if there are fewer. What is returned
     followed by what is pending is what was pending before; `ok` is the method's final assertion.
     */
    method GetNextChunk(numInstances: nat, allowOvershoot: bool) returns (chunk: seq<MemSetEntry>, ok: bool)
      requires Valid()
      modifies this
      ensures Valid() && AllValid(chunk)
      ensures ExpandAll(chunk) + ExpandAll(Pending()) == ExpandAll(old(Pending()))
      ensures Contiguous(chunk, old(next)) && next == old(next) + |ExpandAll(chunk)|
      ensures |ExpandAll(chunk)|
              == if numInstances <= |ExpandAll(old(Pending()))| then numInstances else |ExpandAll(old(Pending()))|
      ensures ok <==> allowOvershoot || chunk == [] || |ExpandAll(chunk)| == numInstances
    {
      hide ExpandAll, Entries, LowerBound, Contiguous, Cut, AllValid, EndsOnce;
      chunk, ok := [], true;
      NothingContiguous(next);
      ExpandNothing();
      AllValidOfContiguous([], next);
      AllValidOfContiguous(Pending(), next);
      if numInstances == 0 {
        return;
      }
      chunk := remainder;
      remainder := [];
      chunk := Fill(chunk, numInstances);
      NoEntries();
      if |chunk| == 0 {
        assert Pending() == [];
        return;
      }
      DeliverCut(chunk, Entries(source), next, numInstances);
      var firstInstance := chunk[0].start;
      chunk := CutBehind(chunk, firstInstance + numInstances - 1);
      AllValidOfContiguous(chunk, next);
      next := next + |ExpandAll(chunk)|;
      ok := allowOvershoot || BufferedInstances(chunk) == numInstances;
      ContiguousLength(chunk, firstInstance);
      ContiguousStart(chunk, firstInstance);
    }

    /** Splits the straddling entry and moves what is in excess into the remainder. */
    method CutBehind(read: seq<MemSetEntry>, lastInstance: nat) returns (chunk: seq<MemSetEntry>)
      requires remainder == [] && read != [] && Contiguous(read, read[0].start) && read[0].start <= lastInstance
      modifies this`remainder
      ensures (chunk, remainder) == Cut(read, lastInstance)
    {
      hide LowerBound;
      chunk := read;
      var straddle := LowerBound(Ends(chunk), lastInstance);
      if straddle != |chunk| {
        StraddleContains(read, read[0].start, lastInstance);
        CutShape(read, straddle, lastInstance);
        if chunk[straddle].end > lastInstance {
          var (kept, rest) := chunk[straddle].SplitOffEnd(chunk[straddle].end - lastInstance);
          remainder := remainder + [rest];
          assert remainder == [rest];
          chunk := chunk[straddle := kept];
        }
        ghost var before, fixed := remainder, chunk;
        if straddle + 1 != |chunk| {
          remainder := remainder + chunk[straddle + 1..];
          chunk := chunk[..straddle + 1];
        }
        assert chunk == fixed[..straddle + 1];
        assert remainder == before + read[straddle + 1..];
        assert before == [] ==> remainder == read[straddle + 1..];
      }
    }
  }

  lemma NoEntries()
    ensures Entries([]) == []
  {
  }

  lemma CutShape(es: seq<MemSetEntry>, k: nat, last: nat)
    requires AllValid(es) && k == LowerBound(Ends(es), last) && k < |es| && es[k].start <= last <= es[k].end
    ensures Cut(es, last) ==
            if es[k].end > last then
              var (kept, rest) := es[k].SplitOffEnd(es[k].end - last);
              (es[k := kept][..k + 1], [rest] + es[k + 1..])
            else (es[..k + 1], es[k + 1..])
  {
    hide LowerBound, Cut, MemSetEntry.SplitOffEnd;
    CutParts(es, k, last);
    if es[k].end > last {
      var (kept, rest) := es[k].SplitOffEnd(es[k].end - last);
      assert es[k := kept][..k + 1] == es[..k] + [kept];
    } else {
      assert es[..k + 1] == es[..k] + [es[k]];
    }
  }

  lemma AllValidOfContiguous(es: seq<MemSetEntry>, first: nat)
    requires Contiguous(es, first)
    ensures AllValid(es)
  {
  }

  lemma ContiguousStart(es: seq<MemSetEntry>, first: nat)
    requires Contiguous(es, first) && es != []
    ensures es[0].start == first
  {
  }

  lemma NothingContiguous(first: nat)
    ensures Contiguous([], first)
  {
  }
}
