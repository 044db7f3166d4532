/**
 Strided runs of memory accesses: `end - start + 1` accesses of `length` bytes, the first at
 `base`, each `stride` bytes after the one before.
 */
module MemSetEntries {
  import opened Divisibility

  /** One dynamic access: the uncompressed trace is a sequence of these. */
  datatype Access = Access(addr: int, length: nat)

  datatype MemSetEntry = MemSetEntry(base: int, stride: int, length: nat, start: nat, end: nat) {

    predicate Valid() {
      start <= end
    }

    /** A valid run of accesses that are at least one byte wide. */
    predicate Proper() {
      Valid() && length > 0
    }

    function NumInstances(): int {
      end - start + 1
    }

    function Last(): int {
      base + (end - start) * stride
    }

    function UpperExtent(): int {
      if stride >= 0 then base + stride * (end - start) + length - 1 else base + length - 1
    }

    function LowerExtent(): int {
      if stride >= 0 then base else base + stride * (end - start)
    }

    function AccessLower(n: int): int {
      base + n * stride
    }

    function AccessUpper(n: int): int {
      base + n * stride + length - 1
    }

    predicate IsAligned()
      requires length > 0
    {
      base % length == 0
    }

    function Normalised(): MemSetEntry {
      if stride < 0 then MemSetEntry(Last(), -stride, length, start, end) else this
    }

    function Prediction(): int {
      base + stride * NumInstances()
    }

    /** The entry that stays and the one holding its last `n` instances. */
    function SplitOffEnd(n: nat): (MemSetEntry, MemSetEntry)
      requires n < NumInstances()
    {
      var remaining := NumInstances() - n;
      (this.(end := end - n), MemSetEntry(base + remaining * stride, stride, length, start + remaining, end))
    }

    function GetSlice(s: nat, e: nat): MemSetEntry
      requires start <= s <= e <= end
    {
      MemSetEntry(base + (s - start) * stride, stride, length, s, e)
    }

    /** The accesses the entry stands for, in order. */
    function Expand(): (r: seq<Access>)
      requires Valid()
      ensures |r| == NumInstances()
    {
      seq(NumInstances(), i => Access(AccessLower(i), length))
    }
  }

  /** Entries with consecutive instance numbers from `first`. */
  ghost predicate Contiguous(es: seq<MemSetEntry>, first: nat) {
    && (forall i :: 0 <= i < |es| ==> es[i].Valid())
    && (es != [] ==> es[0].start == first)
    && (forall i :: 0 < i < |es| ==> es[i].start == es[i - 1].end + 1)
  }

  ghost predicate AllValid(es: seq<MemSetEntry>) {
    forall i :: 0 <= i < |es| ==> es[i].Valid()
  }

  ghost function ExpandAll(es: seq<MemSetEntry>): seq<Access>
    requires AllValid(es)
  {
    if es == [] then [] else es[0].Expand() + ExpandAll(es[1..])
  }

  lemma {:induction false} ExpandAllConcat(a: seq<MemSetEntry>, b: seq<MemSetEntry>)
    requires AllValid(a) && AllValid(b)
    ensures ExpandAll(a + b) == ExpandAll(a) + ExpandAll(b)
  {
    if a == [] {
      assert a + b == b;
    } else {
      assert (a + b)[1..] == a[1..] + b;
      calc {
        ExpandAll(a + b);
        a[0].Expand() + ExpandAll(a[1..] + b);
        { ExpandAllConcat(a[1..], b); }
        a[0].Expand() + (ExpandAll(a[1..]) + ExpandAll(b));
        ExpandAll(a) + ExpandAll(b);
      }
    }
  }

  lemma ExpandAllOne(e: MemSetEntry)
    requires e.Valid()
    ensures ExpandAll([e]) == e.Expand()
  {
    assert ExpandAll([e]) == e.Expand() + ExpandAll([]);
  }

  /** Contiguous entries hold one access per instance number. */
  lemma {:induction false} ContiguousLength(es: seq<MemSetEntry>, first: nat)
    requires Contiguous(es, first) && es != []
    ensures |ExpandAll(es)| == es[|es| - 1].end - first + 1
  {
    if |es| > 1 {
      ContiguousLength(es[1..], es[1].start);
    }
  }

  /** Instance numbers grow along contiguous entries. */
  lemma {:induction false} ContiguousSorted(es: seq<MemSetEntry>, first: nat, i: int, j: int)
    requires Contiguous(es, first) && 0 <= i < j < |es|
    ensures es[i].end < es[j].start
    decreases j
  {
    if i < j - 1 {
      ContiguousSorted(es, first, i, j - 1);
    }
  }

  /** Splitting an entry splits its accesses. */
  lemma {:induction false} SplitConserves(e: MemSetEntry, n: nat)
    requires e.Valid() && 0 < n < e.NumInstances()
    ensures var (kept, rest) := e.SplitOffEnd(n);
            && kept.Valid() && rest.Valid() && rest.NumInstances() == n && rest.start == kept.end + 1
            && kept.Expand() + rest.Expand() == e.Expand()
  {
    var (kept, rest) := e.SplitOffEnd(n);
    var remaining := e.NumInstances() - n;
    forall i | 0 <= i < n
      ensures rest.Expand()[i] == e.Expand()[remaining + i]
    {
      assert (remaining + i) * e.stride == remaining * e.stride + i * e.stride;
    }
    assert kept.Expand() + rest.Expand() == e.Expand();
  }

  /** A slice by instance numbers is the corresponding slice of the accesses. */
  lemma {:induction false} SliceExpands(e: MemSetEntry, s: nat, t: nat)
    requires e.Valid() && e.start <= s <= t <= e.end
    ensures e.GetSlice(s, t).Valid()
    ensures e.GetSlice(s, t).Expand() == e.Expand()[s - e.start..t + 1 - e.start]
  {
    forall i | 0 <= i <= t - s
      ensures e.GetSlice(s, t).Expand()[i] == e.Expand()[s - e.start + i]
    {
      assert (s - e.start + i) * e.stride == (s - e.start) * e.stride + i * e.stride;
    }
  }

  /** The extents are the lowest and the highest byte of any access. */
  lemma {:induction false} ExtentsBound(e: MemSetEntry, n: int)
    requires e.Proper() && 0 <= n < e.NumInstances()
    ensures e.LowerExtent() <= e.AccessLower(n) <= e.AccessUpper(n) <= e.UpperExtent()
  {
    var k := e.end - e.start;
    if e.stride > 0 {
      MulMonotone(e.stride, n, 0);
      MulMonotone(e.stride, k, n);
    } else if e.stride < 0 {
      MulMonotone(-e.stride, n, 0);
      MulMonotone(-e.stride, k, n);
      assert -e.stride * n == -(e.stride * n) && -e.stride * k == -(e.stride * k);
    }
  }

  lemma ExtentsReached(e: MemSetEntry)
    requires e.Valid()
    ensures e.LowerExtent() == e.AccessLower(if e.stride >= 0 then 0 else e.end - e.start)
    ensures e.UpperExtent() == e.AccessUpper(if e.stride >= 0 then e.end - e.start else 0)
  {
  }

  /** Normalising reverses a run with a negative stride and keeps its accesses. */
  lemma {:induction false} NormalisedReverses(e: MemSetEntry, n: int)
    requires e.Valid() && 0 <= n < e.NumInstances()
    ensures var m := e.Normalised();
            && m.Valid() && m.stride >= 0 && m.NumInstances() == e.NumInstances() && m.length == e.length
            && m.AccessLower(n) == e.AccessLower(if e.stride < 0 then e.NumInstances() - 1 - n else n)
            && m.LowerExtent() == e.LowerExtent() && m.UpperExtent() == e.UpperExtent()
  {
    if e.stride < 0 {
      var k := e.end - e.start;
      assert n * -e.stride == -(n * e.stride) && (k - n) * e.stride == k * e.stride - n * e.stride;
      assert -e.stride * k == -(e.stride * k) && e.stride * k == k * e.stride;
    }
  }
}
