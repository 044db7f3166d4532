/** The ranges that a dump writes for a set of sharers, and their uniqueness. */
module SharerRanges {
  import opened BitSets
  import opened RepetitionPatterns

  /** Increasing ranges with at least one number missing between any two: maximal runs of their members. */
  ghost predicate Runs(p: RepetitionPattern) {
    Increasing(p) && forall i, j :: 0 <= i < j < |p| ==> p[i].last + 1 < p[j].first
  }

  lemma HasSnoc(p: RepetitionPattern, r: Range, n: int)
    ensures Has(p + [r], n) <==> Has(p, n) || r.first <= n <= r.last
  {
    var q := p + [r];
    if Has(p, n) {
      var i :| 0 <= i < |p| && p[i].first <= n <= p[i].last;
      assert q[i].first <= n <= q[i].last;
    }
    if r.first <= n <= r.last {
      assert q[|p|].first <= n <= q[|p|].last;
    }
  }

  lemma RunsSnoc(p: RepetitionPattern, r: Range)
    requires Runs(p) && r.first <= r.last && (p != [] ==> p[|p| - 1].last + 1 < r.first)
    ensures Runs(p + [r])
  {
  }

  /** The written ranges are maximal runs holding exactly the shifted members of the bit set. */
  method WriteRange(sharers: XanBitSet, sharersOffset: nat) returns (out: RepetitionPattern)
    requires sharers.Valid() && sharers.length > 0
    ensures Runs(out)
    ensures forall n: nat :: Has(out, n) <==> n >= sharersOffset && n - sharersOffset in sharers.Members()
  {
    hide Has, Runs, XanBitSet.Valid;
    out := [];
    assert Runs(out) by { NoRuns(); }
    ghost var members := sharers.Members();
    var startInv := -1;
    var numSharers := sharers.length;
    NothingHas();
    while true
      invariant startInv >= -1
      invariant startInv >= 0 ==> startInv !in members
      invariant Runs(out)
      invariant out != [] ==> out[|out| - 1].last < sharersOffset + startInv
      invariant forall n: nat :: Has(out, n) <==>
        n >= sharersOffset && n - sharersOffset <= startInv && n - sharersOffset in members
      decreases numSharers - startInv
    {
      ghost var from := startInv + 1;
      startInv := sharers.GetFirstBitSetInRange(startInv + 1, numSharers);
      if startInv == -1 {
        assert forall pos: nat | from <= pos <= numSharers :: pos !in sharers.Members();
        return;
      }
      var endInv := sharers.GetFirstBitUnsetInRange(startInv, numSharers);
      if endInv == -1 {
        endInv := numSharers - 1;
      } else {
        endInv := endInv - 1;
      }
      assert endInv >= startInv && forall pos: nat :: startInv <= pos <= endInv ==> pos in members;
      ghost var before := out;
      RunsSnoc(before, Range(sharersOffset + startInv, sharersOffset + endInv));
      out := out + [Range(sharersOffset + startInv, sharersOffset + endInv)];
      forall n: nat
        ensures Has(out, n) <==> n >= sharersOffset && n - sharersOffset <= endInv + 1 && n - sharersOffset in members
      {
        HasSnoc(before, Range(sharersOffset + startInv, sharersOffset + endInv), n);
      }
      startInv := endInv + 1;
    }
  }

  lemma NoRuns()
    ensures Runs([])
  {
  }

  lemma NothingHas()
    ensures forall n :: !Has([], n)
  {
  }

  lemma {:induction false} HasFirst(p: RepetitionPattern, n: nat)
    requires Runs(p) && p != []
    ensures Has(p, n) ==> n >= p[0].first
    ensures p[0].first <= n <= p[0].last ==> Has(p, n)
    ensures n == p[0].last + 1 ==> !Has(p, n)
    ensures Runs(p[1..])
    ensures Has(p[1..], n) <==> Has(p, n) && n > p[0].last
  {
    hide Has;
    assert Proper(p);
    HasAfterFirst(p, n);
    BoundedByEnds(p, n);
    if |p| > 1 {
      BoundedByEnds(p[1..], n);
    }
  }

  /** The maximal runs of a set are determined by it: reading the ranges back loses nothing. */
  lemma {:induction false} RunsUnique(p: RepetitionPattern, q: RepetitionPattern)
    requires Runs(p) && Runs(q)
    requires forall n: nat :: Has(p, n) <==> Has(q, n)
    ensures p == q
    decreases |p|
  {
    hide Has, Runs;
    if p == [] || q == [] {
      NothingHas();
      if p != [] {
        SomeMember(p);
      }
      if q != [] {
        SomeMember(q);
      }
    } else {
      SomeMember(p);
      SomeMember(q);
      HasFirst(p, q[0].first);
      HasFirst(q, p[0].first);
      FirstRunEnds(p, q);
      FirstRunEnds(q, p);
      forall n: nat
        ensures Has(p[1..], n) <==> Has(q[1..], n)
      {
        HasFirst(p, n);
        HasFirst(q, n);
      }
      RunsUnique(p[1..], q[1..]);
    }
  }

  lemma SomeMember(p: RepetitionPattern)
    requires Runs(p) && p != []
    ensures Has(p, p[0].first)
  {
  }

  lemma FirstRunEnds(p: RepetitionPattern, q: RepetitionPattern)
    requires Runs(p) && Runs(q) && p != [] && q != [] && p[0].first == q[0].first
    requires forall n: nat :: Has(p, n) <==> Has(q, n)
    ensures p[0].last <= q[0].last
  {
    hide Has;
    HasFirst(q, q[0].last + 1);
    HasFirst(p, q[0].last + 1);
  }
}
