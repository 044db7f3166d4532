/**
 Recording memory references at run time: each reference extends the latest strided run or
 starts a new one. The compressed set is lossless, and no shorter one exists.
 */
module MemoryTracer {
  import opened MemSetEntries

  /** The first access index of entry `k`. */
  ghost function Bound(es: seq<MemSetEntry>, k: nat): nat
    requires AllValid(es) && k <= |es|
  {
    |ExpandAll(es[..k])|
  }

  /** Equal widths and a constant stride, as a property of neighbouring accesses. */
  ghost predicate IsRun(s: seq<Access>) {
    && (forall i :: 0 < i < |s| ==> s[i].length == s[i - 1].length)
    && (forall i :: 1 < i < |s| ==> s[i].addr - s[i - 1].addr == s[i - 1].addr - s[i - 2].addr)
  }

  lemma ExpandIsRun(e: MemSetEntry)
    requires e.Valid()
    ensures IsRun(e.Expand())
  {
    var s := e.Expand();
    forall i | 1 < i < |s|
      ensures s[i].addr - s[i - 1].addr == s[i - 1].addr - s[i - 2].addr
    {
      assert i * e.stride - (i - 1) * e.stride == (i - 1) * e.stride - (i - 2) * e.stride;
    }
  }

  lemma InnerRun(s: seq<Access>, from: nat, to: nat, lo: nat, hi: nat)
    requires from <= lo <= hi <= to <= |s| && IsRun(s[from..to])
    ensures IsRun(s[lo..hi])
  {
    var outer, inner := s[from..to], s[lo..hi];
    assert forall i | 0 <= i < |inner| :: inner[i] == outer[i + (lo - from)];
  }

  function FirstAccess(e: MemSetEntry): Access {
    Access(e.base, e.length)
  }

  /** Every entry but the last was left because the next access does not continue it. */
  ghost predicate Greedy(es: seq<MemSetEntry>)
    requires AllValid(es)
  {
    forall k :: 0 < k < |es| ==> !IsRun(es[k - 1].Expand() + [FirstAccess(es[k])])
  }

  /** Entry `k` occupies the accesses from its bound to the next. */
  lemma PieceOf(es: seq<MemSetEntry>, k: nat)
    requires AllValid(es) && k < |es|
    ensures Bound(es, k + 1) == Bound(es, k) + es[k].NumInstances() <= |ExpandAll(es)|
    ensures ExpandAll(es)[Bound(es, k)..Bound(es, k + 1)] == es[k].Expand()
  {
    var a, b := es[..k], es[k + 1..];
    assert es[..k + 1] == a + [es[k]];
    assert es == es[..k + 1] + b;
    ExpandAllConcat(a, [es[k]]);
    ExpandAllOne(es[k]);
    ExpandAllConcat(es[..k + 1], b);
  }

  lemma LastBound(es: seq<MemSetEntry>)
    requires AllValid(es)
    ensures Bound(es, |es|) == |ExpandAll(es)|
    ensures Bound(es, 0) == 0
  {
    assert es[..|es|] == es;
  }

  /** Entry `k` and the access after it. */
  lemma PieceAndNext(es: seq<MemSetEntry>, k: nat)
    requires AllValid(es) && k + 1 < |es|
    ensures Bound(es, k) <= Bound(es, k + 1) < |ExpandAll(es)|
    ensures ExpandAll(es)[Bound(es, k)..Bound(es, k + 1) + 1] == es[k].Expand() + [FirstAccess(es[k + 1])]
  {
    hide ExpandAll, Bound;
    PieceOf(es, k);
    PieceOf(es, k + 1);
    var rec, lo, hi, end := ExpandAll(es), Bound(es, k), Bound(es, k + 1), Bound(es, k + 2);
    assert rec[hi] == rec[hi..end][0];
    assert rec[lo..hi + 1] == rec[lo..hi] + [rec[hi]];
  }

  /** A greedy list is never behind another list for the same accesses. */
  lemma {:induction false} NeverBehind(es: seq<MemSetEntry>, other: seq<MemSetEntry>, j: nat)
    requires AllValid(es) && AllValid(other) && ExpandAll(es) == ExpandAll(other)
    requires Greedy(es) && j <= |es| && j <= |other|
    ensures Bound(other, j) <= Bound(es, j)
  {
    if j == 0 {
      LastBound(es);
      LastBound(other);
    } else {
      hide IsRun, ExpandAll, Bound, Greedy;
      NeverBehind(es, other, j - 1);
      PieceOf(es, j - 1);
      PieceOf(other, j - 1);
      if j == |es| {
        LastBound(es);
      } else {
        Catches(es, other, j - 1);
      }
    }
  }

  /** From a bound that is not ahead, no run of the other list reaches past the greedy entry. */
  lemma Catches(es: seq<MemSetEntry>, other: seq<MemSetEntry>, j: nat)
    requires AllValid(es) && AllValid(other) && ExpandAll(es) == ExpandAll(other)
    requires Greedy(es) && j + 1 < |es| && j < |other| && Bound(other, j) <= Bound(es, j)
    ensures Bound(other, j + 1) <= Bound(es, j + 1)
  {
    hide IsRun, ExpandAll, Bound;
    var from, to, lo, hi := Bound(other, j), Bound(other, j + 1), Bound(es, j), Bound(es, j + 1);
    if to > hi {
      PieceOf(other, j);
      PieceAndNext(es, j);
      ExpandIsRun(other[j]);
      InnerRun(ExpandAll(es), from, to, lo, hi + 1);
    }
  }

  /** No list of strided entries for the same accesses is shorter than a greedy one. */
  lemma {:induction false} GreedyOptimal(es: seq<MemSetEntry>, other: seq<MemSetEntry>)
    requires AllValid(es) && AllValid(other) && ExpandAll(es) == ExpandAll(other) && Greedy(es)
    ensures |es| <= |other|
  {
    if |other| < |es| {
      NeverBehind(es, other, |other|);
      assert other[..|other|] == other;
      PieceOf(es, |other|);
    }
  }

  // ---------- recording ----------

  function Fresh(prev: MemSetEntry, addr: int, len: nat): MemSetEntry {
    MemSetEntry(addr, 0, len, prev.end + 1, prev.end + 1)
  }

  /** The entries after recording one more reference. */
  function AddReference(es: seq<MemSetEntry>, addr: int, len: nat): seq<MemSetEntry> {
    if es == [] then [MemSetEntry(addr, 0, len, 0, 0)]
    else
      var last := |es| - 1;
      var prev := es[last];
      if prev.length != len then es + [Fresh(prev, addr, len)]
      else if prev.start == prev.end then es[last := prev.(stride := addr - prev.base, end := prev.end + 1)]
      else if prev.Prediction() == addr then es[last := prev.(end := prev.end + 1)]
      else es + [Fresh(prev, addr, len)]
  }

  /** Entries of a single access have stride 0. */
  ghost predicate SinglesFlat(es: seq<MemSetEntry>) {
    forall i :: 0 <= i < |es| && es[i].start == es[i].end ==> es[i].stride == 0
  }

  ghost predicate Represents(es: seq<MemSetEntry>, recorded: seq<Access>) {
    && Contiguous(es, 0)
    && ExpandAll(es) == recorded
    && Greedy(es)
    && SinglesFlat(es)
  }

  /** What follows the last entry does not matter to the others. */
  lemma StillGreedy(es: seq<MemSetEntry>, p: MemSetEntry)
    requires es != [] && AllValid(es) && Greedy(es) && p.Valid() && FirstAccess(p) == FirstAccess(es[|es| - 1])
    ensures AllValid(es[|es| - 1 := p]) && Greedy(es[|es| - 1 := p])
  {
    hide IsRun, MemSetEntry.Expand;
    var fs := es[|es| - 1 := p];
    forall k | 0 < k < |fs|
      ensures !IsRun(fs[k - 1].Expand() + [FirstAccess(fs[k])])
    {
      assert fs[k - 1] == es[k - 1] && FirstAccess(fs[k]) == FirstAccess(es[k]);
    }
  }

  /** Lengthening the last entry by an access that continues it. */
  lemma ExtendLast(es: seq<MemSetEntry>, recorded: seq<Access>, p: MemSetEntry, a: Access)
    requires es != [] && Represents(es, recorded) && p.Valid()
    requires var q := es[|es| - 1];
             && p.base == q.base && p.length == q.length && p.start == q.start && p.end == q.end + 1
             && p.Expand() == q.Expand() + [a]
    ensures Represents(es[|es| - 1 := p], recorded + [a])
  {
    hide Greedy, ExpandAll, MemSetEntry.Expand;
    var last := |es| - 1;
    var init, fs := es[..last], es[last := p];
    assert es == init + [es[last]] && fs == init + [p];
    ExpandAllConcat(init, [es[last]]);
    ExpandAllConcat(init, [p]);
    ExpandAllOne(es[last]);
    ExpandAllOne(p);
    StillGreedy(es, p);
  }

  /** Starting a new entry at an access that does not continue the last one. */
  lemma AppendFresh(es: seq<MemSetEntry>, recorded: seq<Access>, a: Access)
    requires es != [] && Represents(es, recorded)
    requires !IsRun(es[|es| - 1].Expand() + [a])
    ensures Represents(es + [Fresh(es[|es| - 1], a.addr, a.length)], recorded + [a])
  {
    hide IsRun;
    var last := |es| - 1;
    var q := Fresh(es[last], a.addr, a.length);
    var fs := es + [q];
    ExpandAllConcat(es, [q]);
    ExpandAllOne(q);
    assert q.Expand() == [a];
  }

  lemma RepresentsFlat(es: seq<MemSetEntry>, recorded: seq<Access>)
    requires Represents(es, recorded)
    ensures forall i :: 0 <= i < |es| && es[i].start == es[i].end ==> es[i].stride == 0
  {
  }

  lemma RepresentsOptimally(es: seq<MemSetEntry>, recorded: seq<Access>)
    requires Represents(es, recorded)
    ensures forall other | AllValid(other) && ExpandAll(other) == recorded :: |es| <= |other|
  {
    forall other | AllValid(other) && ExpandAll(other) == recorded
      ensures |es| <= |other|
    {
      GreedyOptimal(es, other);
    }
  }

  /** Two lists that represent the same references end their entries at the same accesses. */
  lemma SameBounds(es: seq<MemSetEntry>, other: seq<MemSetEntry>, recorded: seq<Access>, k: nat)
    requires Represents(es, recorded) && Represents(other, recorded) && k <= |es|
    ensures |es| == |other| && Bound(es, k) == Bound(other, k)
  {
    hide ExpandAll, Bound, Greedy, SinglesFlat;
    GreedyOptimal(es, other);
    GreedyOptimal(other, es);
    NeverBehind(es, other, k);
    NeverBehind(other, es, k);
  }

  /** The numbers of an entry are those of its accesses. */
  lemma {:induction false} StartIsBound(es: seq<MemSetEntry>, k: nat)
    requires Contiguous(es, 0) && k < |es|
    ensures es[k].start == Bound(es, k) && es[k].end + 1 == Bound(es, k + 1)
  {
    hide ExpandAll, Bound;
    LastBound(es);
    PieceOf(es, k);
    if k > 0 {
      StartIsBound(es, k - 1);
    }
  }

  /** An entry is determined by its accesses and its first number, if a single access has stride 0. */
  lemma EntryUnique(e: MemSetEntry, f: MemSetEntry)
    requires e.Valid() && f.Valid() && e.Expand() == f.Expand() && e.start == f.start && e.end == f.end
    requires e.start == e.end ==> e.stride == 0 == f.stride
    ensures e == f
  {
    assert e.Expand()[0] == f.Expand()[0];
    if e.start < e.end {
      assert e.Expand()[1] == f.Expand()[1];
    }
  }

  /** The entries are determined by the recorded references. */
  lemma RepresentsUnique(es: seq<MemSetEntry>, other: seq<MemSetEntry>, recorded: seq<Access>)
    requires Represents(es, recorded) && Represents(other, recorded)
    ensures es == other
  {
    hide ExpandAll, Bound, Greedy;
    SameBounds(es, other, recorded, 0);
    forall k | 0 <= k < |es|
      ensures es[k] == other[k]
    {
      SameBounds(es, other, recorded, k);
      SameBounds(es, other, recorded, k + 1);
      StartIsBound(es, k);
      StartIsBound(other, k);
      PieceOf(es, k);
      PieceOf(other, k);
      EntryUnique(es[k], other[k]);
    }
  }

  lemma NotContinued(q: MemSetEntry, a: Access)
    requires q.Valid()
    requires q.length != a.length || (q.start != q.end && q.Prediction() != a.addr)
    ensures !IsRun(q.Expand() + [a])
  {
    var s, n := q.Expand() + [a], q.NumInstances();
    if q.length != a.length {
      assert s[n].length != s[n - 1].length;
    } else {
      assert (n - 1) * q.stride - (n - 2) * q.stride == q.stride && q.stride * n == n * q.stride;
      assert n * q.stride == (n - 1) * q.stride + q.stride;
      assert s[n].addr - s[n - 1].addr != s[n - 1].addr - s[n - 2].addr;
    }
  }

  lemma AddReferenceKeeps(es: seq<MemSetEntry>, recorded: seq<Access>, addr: int, len: nat)
    requires Represents(es, recorded)
    ensures Represents(AddReference(es, addr, len), recorded + [Access(addr, len)])
  {
    hide IsRun, Greedy;
    var a := Access(addr, len);
    if es == [] {
      FirstReference(addr, len);
    } else {
      var q := es[|es| - 1];
      if q.length != len || (q.start != q.end && q.Prediction() != addr) {
        NotContinued(q, a);
        AppendFresh(es, recorded, a);
      } else {
        var p := if q.start == q.end then q.(stride := addr - q.base, end := q.end + 1) else q.(end := q.end + 1);
        Continued(q, p, a);
        ExtendLast(es, recorded, p, a);
      }
    }
  }

  lemma FirstReference(addr: int, len: nat)
    ensures Represents([MemSetEntry(addr, 0, len, 0, 0)], [Access(addr, len)])
  {
    var e := MemSetEntry(addr, 0, len, 0, 0);
    ExpandAllOne(e);
    assert e.Expand() == [Access(addr, len)];
  }

  lemma Continued(q: MemSetEntry, p: MemSetEntry, a: Access)
    requires q.Valid() && q.length == a.length
    requires q.start != q.end ==> q.Prediction() == a.addr
    requires p == if q.start == q.end then q.(stride := a.addr - q.base, end := q.end + 1) else q.(end := q.end + 1)
    ensures p.Expand() == q.Expand() + [a]
  {
    if q.start == q.end {
      assert p.Expand() == [Access(q.base, q.length), a] == q.Expand() + [a];
    } else {
      assert q.stride * q.NumInstances() == q.NumInstances() * q.stride;
    }
  }

  /** The references recorded so far, replayed from the empty set. */
  function RecordAll(accesses: seq<Access>): seq<MemSetEntry> {
    if accesses == [] then []
    else
      var a := accesses[|accesses| - 1];
      AddReference(RecordAll(accesses[..|accesses| - 1]), a.addr, a.length)
  }

  /** Over every sequence of references the set is lossless and numbered without gaps. */
  lemma {:induction false} RecordAllRepresents(accesses: seq<Access>)
    ensures Represents(RecordAll(accesses), accesses)
  {
    if accesses != [] {
      hide AddReference, Represents;
      var init, a := accesses[..|accesses| - 1], accesses[|accesses| - 1];
      RecordAllRepresents(init);
      AddReferenceKeeps(RecordAll(init), init, a.addr, a.length);
      assert accesses == init + [a];
    }
  }

  /** The set of a tracer: the entries, the last of which is still growing. */
  class TracerMemSet {
    var entries: seq<MemSetEntry>
    ghost var recorded: seq<Access>

    ghost predicate Valid()
      reads this
    {
      Represents(entries, recorded)
    }

    constructor ()
      ensures Valid() && recorded == []
    {
      entries, recorded := [], [];
    }

    method NewMemSetEntry(b: int, s: int, l: nat, st: nat, e: nat)
      modifies this`entries
      ensures entries == old(entries) + [MemSetEntry(b, s, l, st, e)]
    {
      entries := entries + [MemSetEntry(b, s, l, st, e)];
    }

    /** Lossless, and with as few entries as any strided list for the same references. */
    method RecordMemoryReference(addr: int, len: nat)
      requires Valid()
      modifies this
      ensures Valid() && recorded == old(recorded) + [Access(addr, len)]
      ensures entries == AddReference(old(entries), addr, len)
      ensures forall other | AllValid(other) && ExpandAll(other) == recorded :: |entries| <= |other|
      ensures forall i :: 0 <= i < |entries| && entries[i].start == entries[i].end ==> entries[i].stride == 0
    {
      hide Represents, ExpandAll;
      ghost var before := entries;
      AddReferenceKeeps(entries, recorded, addr, len);
      if |entries| == 0 {
        NewMemSetEntry(addr, 0, len, 0, 0);
        assert entries == [MemSetEntry(addr, 0, len, 0, 0)];
      } else {
        var last := |entries| - 1;
        var prev := entries[last];
        if prev.length != len {
          NewMemSetEntry(addr, 0, len, prev.end + 1, prev.end + 1);
        } else if prev.start == prev.end {
          entries := entries[last := prev.(stride := addr - prev.base)];
          entries := entries[last := entries[last].(end := prev.end + 1)];
          assert entries == before[last := prev.(stride := addr - prev.base, end := prev.end + 1)];
        } else if prev.Prediction() == addr {
          entries := entries[last := prev.(end := prev.end + 1)];
        } else {
          NewMemSetEntry(addr, 0, len, prev.end + 1, prev.end + 1);
        }
      }
      recorded := recorded + [Access(addr, len)];
      RepresentsOptimally(entries, recorded);
      RepresentsFlat(entries, recorded);
    }
  }
}
