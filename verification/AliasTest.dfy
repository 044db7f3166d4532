/** Deciding whether two strided runs touch a common byte. */
module AliasTest {
  import opened Divisibility
  import opened DynamicGcd
  import opened DynamicGcdWord
  import opened MemSetEntries

  /** Access `i` of `a` and access `j` of `b` share a byte. */
  predicate Touch(a: MemSetEntry, i: int, b: MemSetEntry, j: int) {
    a.AccessLower(i) <= b.AccessUpper(j) && b.AccessLower(j) <= a.AccessUpper(i)
  }

  ghost predicate SharesByte(a: MemSetEntry, b: MemSetEntry) {
    exists i, j :: 0 <= i < a.NumInstances() && 0 <= j < b.NumInstances() && Touch(a, i, b, j)
  }

  predicate SameBase(a: MemSetEntry, i: int, b: MemSetEntry, j: int) {
    a.AccessLower(i) == b.AccessLower(j)
  }

  /** Some access of `a` starts at the same address as some access of `b`. */
  ghost predicate SharesBase(a: MemSetEntry, b: MemSetEntry) {
    exists i, j :: 0 <= i < a.NumInstances() && 0 <= j < b.NumInstances() && SameBase(a, i, b, j)
  }

  /** What the interval tree has established when two entries are compared. */
  predicate ExtentsOverlap(a: MemSetEntry, b: MemSetEntry) {
    a.LowerExtent() <= b.UpperExtent() && b.LowerExtent() <= a.UpperExtent()
  }

  method IsAliasBruteForce(write: MemSetEntry, read: MemSetEntry) returns (alias: bool)
    requires write.Proper() && read.Proper()
    ensures alias <==> SharesByte(write, read)
  {
    for j := 0 to read.NumInstances()
      invariant forall i, k :: 0 <= i < write.NumInstances() && 0 <= k < j ==> !Touch(write, i, read, k)
    {
      for i := 0 to write.NumInstances()
        invariant forall k :: 0 <= k < i ==> !Touch(write, k, read, j)
      {
        if write.AccessLower(i) <= read.AccessUpper(j) && read.AccessLower(j) <= write.AccessUpper(i) {
          assert Touch(write, i, read, j);
          return true;
        }
      }
    }
    return false;
  }

  /** The entry handed to dynamic_gcd: a constant access becomes a run of one with stride `length`. */
  function GcdForm(e: MemSetEntry, length: nat): MemSetEntry {
    if e.stride == 0 then MemSetEntry(e.base, length, e.length, 0, 0) else e.Normalised()
  }

  /** Both entries take the fast path: equal lengths, both aligned. */
  predicate FastPath(write: MemSetEntry, read: MemSetEntry)
    requires write.Proper() && read.Proper()
  {
    write.length == read.length && write.IsAligned() && read.IsAligned()
  }

  predicate NonNegative(e: MemSetEntry) {
    e.LowerExtent() >= 0
  }

  lemma GcdFormShape(e: MemSetEntry, length: nat)
    requires e.Proper() && NonNegative(e) && length > 0
    ensures var m := GcdForm(e, length);
            m.Proper() && m.stride > 0 && 0 <= m.base <= m.Last()
            && m.base == e.LowerExtent() && m.Last() + e.length - 1 == e.UpperExtent()
  {
    if e.stride != 0 {
      NormalisedReverses(e, 0);
      MulMonotone(e.Normalised().stride, e.end - e.start, 0);
    }
  }

  /** The fast path of isAlias, with dynamic_gcd read over the integers. */
  predicate GcdAlias(write: MemSetEntry, read: MemSetEntry)
    requires write.Proper() && read.Proper() && NonNegative(write) && NonNegative(read)
  {
    var w, r := GcdForm(write, write.length), GcdForm(read, write.length);
    GcdFormShape(write, write.length);
    GcdFormShape(read, write.length);
    IntersectStrides(w.base, r.base, w.Last(), r.Last(), w.stride, r.stride).count > 0
  }

  /** The addresses of a normal form are the addresses of the accesses. */
  lemma FormAddresses(e: MemSetEntry, length: nat, addr: int)
    requires e.Proper() && NonNegative(e) && length > 0
    ensures var m := GcdForm(e, length);
            && m.stride > 0
            && (InProgression(addr, m.base, m.Last(), m.stride)
                <==> exists i :: 0 <= i < e.NumInstances() && e.AccessLower(i) == addr)
  {
    var m, k := GcdForm(e, length), e.end - e.start;
    GcdFormShape(e, length);
    if InProgression(addr, m.base, m.Last(), m.stride) {
      var n := (addr - m.base) / m.stride;
      assert addr == m.base + n * m.stride;
      InstanceInRange(m, n);
      if e.stride == 0 {
        assert e.AccessLower(0) == addr;
      } else {
        NormalisedReverses(e, n);
        assert e.AccessLower(if e.stride < 0 then e.NumInstances() - 1 - n else n) == addr;
      }
    }
    if i :| 0 <= i < e.NumInstances() && e.AccessLower(i) == addr {
      var n := if e.stride == 0 then 0 else if e.stride < 0 then e.NumInstances() - 1 - i else i;
      if e.stride != 0 {
        NormalisedReverses(e, n);
      } else {
        assert i * e.stride == 0;
      }
      assert addr == m.base + n * m.stride;
      MulMonotone(m.stride, n, 0);
      MulMonotone(m.stride, m.end - m.start, n);
      MultipleDivides(m.stride, n);
    }
  }

  lemma InstanceInRange(m: MemSetEntry, n: int)
    requires m.Proper() && m.stride > 0 && m.base <= m.base + n * m.stride <= m.Last()
    ensures 0 <= n < m.NumInstances()
  {
    if n < 0 {
      MulNeg(m.stride, n);
    } else if n > m.end - m.start {
      MulMonotone(m.stride, n, m.end - m.start + 1);
      Distribute(m.stride, m.end - m.start, 1);
    }
  }

  /** For any two entries, the fast path finds exactly the common start addresses. */
  lemma GcdAliasFindsBases(write: MemSetEntry, read: MemSetEntry)
    requires write.Proper() && read.Proper() && NonNegative(write) && NonNegative(read)
    ensures GcdAlias(write, read) <==> SharesBase(write, read)
  {
    hide IntersectStrides, InProgression;
    var w, r := GcdForm(write, write.length), GcdForm(read, write.length);
    GcdFormShape(write, write.length);
    GcdFormShape(read, write.length);
    CountPositiveIffCommon(w.base, r.base, w.Last(), r.Last(), w.stride, r.stride);
    if addr :| InProgression(addr, w.base, w.Last(), w.stride) && InProgression(addr, r.base, r.Last(), r.stride) {
      FormAddresses(write, write.length, addr);
      FormAddresses(read, write.length, addr);
      var i :| 0 <= i < write.NumInstances() && write.AccessLower(i) == addr;
      var j :| 0 <= j < read.NumInstances() && read.AccessLower(j) == addr;
      assert SameBase(write, i, read, j);
    }
    if i, j :| 0 <= i < write.NumInstances() && 0 <= j < read.NumInstances() && SameBase(write, i, read, j) {
      FormAddresses(write, write.length, write.AccessLower(i));
      FormAddresses(read, write.length, write.AccessLower(i));
    }
  }

  /** The strides are multiples of the access length. */
  predicate WholeStrides(write: MemSetEntry, read: MemSetEntry)
    requires write.Proper() && read.Proper()
  {
    Divides(write.length, write.stride) && Divides(read.length, read.stride)
  }

  lemma AccessAligned(e: MemSetEntry, n: int)
    requires e.Proper() && e.IsAligned() && Divides(e.length, e.stride)
    ensures Divides(e.length, e.AccessLower(n))
  {
    DividesTimes(e.length, e.stride, n);
    DividesSum(e.length, e.base, e.stride * n);
  }

  /** Two aligned accesses of equal length overlap only if they coincide. */
  lemma AlignedTouchIsSame(length: nat, a: int, b: int)
    requires length > 0 && Divides(length, a) && Divides(length, b)
    requires a <= b + length - 1 && b <= a + length - 1
    ensures a == b
  {
    DividesDifference(length, a, b);
    var k := (a - b) / length;
    if k > 0 {
      MulPos(length, k);
    } else if k < 0 {
      MulNeg(length, k);
    }
  }

  lemma SharesByteIsSharesBase(write: MemSetEntry, read: MemSetEntry)
    requires write.Proper() && read.Proper() && FastPath(write, read) && WholeStrides(write, read)
    ensures SharesByte(write, read) <==> SharesBase(write, read)
  {
    if i, j :| 0 <= i < write.NumInstances() && 0 <= j < read.NumInstances() && Touch(write, i, read, j) {
      AccessAligned(write, i);
      AccessAligned(read, j);
      AlignedTouchIsSame(write.length, write.AccessLower(i), read.AccessLower(j));
      assert SameBase(write, i, read, j);
    }
    if i, j :| 0 <= i < write.NumInstances() && 0 <= j < read.NumInstances() && SameBase(write, i, read, j) {
      assert Touch(write, i, read, j);
    }
  }

  /** Two constant entries with overlapping extents touch. */
  lemma ConstantsTouch(write: MemSetEntry, read: MemSetEntry)
    requires write.Proper() && read.Proper() && write.stride == 0 && read.stride == 0
    requires ExtentsOverlap(write, read)
    ensures SharesByte(write, read)
  {
    assert Touch(write, 0, read, 0);
  }

  /** Where the fast path agrees with the brute-force search. */
  lemma GcdAliasAgrees(write: MemSetEntry, read: MemSetEntry)
    requires write.Proper() && read.Proper() && NonNegative(write) && NonNegative(read)
    requires FastPath(write, read) && WholeStrides(write, read)
    ensures GcdAlias(write, read) <==> SharesByte(write, read)
  {
    GcdAliasFindsBases(write, read);
    SharesByteIsSharesBase(write, read);
  }

  /** Neither a pair of constants nor a pair for the quadratic search: the answer is that of dynamic_gcd. */
  predicate TakesGcd(write: MemSetEntry, read: MemSetEntry)
    requires write.Proper() && read.Proper()
  {
    FastPath(write, read) && (write.stride != 0 || read.stride != 0)
  }

  /**
   isAlias over the integers, called on entries with overlapping extents. On the fast path it finds exactly
   the common start addresses, for all strides; with whole strides, and off the fast path, it agrees with
   the quadratic search.
   */
  method IsAlias(write: MemSetEntry, read: MemSetEntry) returns (alias: bool)
    requires write.Proper() && read.Proper() && NonNegative(write) && NonNegative(read)
    requires ExtentsOverlap(write, read)
    ensures TakesGcd(write, read) ==> (alias <==> SharesBase(write, read))
    ensures !TakesGcd(write, read) || WholeStrides(write, read) ==> (alias <==> SharesByte(write, read))
  {
    hide GcdAlias, SharesByte, SharesBase, FastPath, WholeStrides, ExtentsOverlap;
    if write.stride == 0 && read.stride == 0 {
      ConstantsTouch(write, read);
      return true;
    }
    if !FastPath(write, read) {
      alias := IsAliasBruteForce(write, read);
      return;
    }
    if WholeStrides(write, read) {
      GcdAliasAgrees(write, read);
    }
    GcdAliasFindsBases(write, read);
    alias := GcdAlias(write, read);
  }

  /** Without whole strides a partial overlap is missed: 6..9 and 4..7 share bytes but no start. */
  lemma PartialOverlapMissed(write: MemSetEntry, read: MemSetEntry)
    requires write == MemSetEntry(0, 6, 4, 0, 1) && read == MemSetEntry(4, 0, 4, 0, 0)
    ensures write.Proper() && read.Proper() && NonNegative(write) && NonNegative(read)
    ensures FastPath(write, read) && ExtentsOverlap(write, read)
    ensures SharesByte(write, read) && !GcdAlias(write, read)
  {
    hide GcdAlias, SharesBase, SharesByte;
    OnlyBytesShared(write, read);
    assert GcdForm(write, 4) == write && GcdForm(read, 4) == MemSetEntry(4, 4, 4, 0, 0);
    GcdAliasFindsBases(write, read);
  }

  lemma OnlyBytesShared(write: MemSetEntry, read: MemSetEntry)
    requires write == MemSetEntry(0, 6, 4, 0, 1) && read == MemSetEntry(4, 0, 4, 0, 0)
    ensures SharesByte(write, read) && !SharesBase(write, read)
  {
    assert Touch(write, 1, read, 0);
    assert forall i, j | SameBase(write, i, read, j) :: 6 * i == 4;
  }

  // ---------- which strides the fast path is right for ----------

  /** Two entries with these strides and this access length that isAlias may be called with. */
  ghost predicate TestedPair(write: MemSetEntry, read: MemSetEntry, length: nat, s: int, t: int) {
    && write.Proper() && read.Proper() && NonNegative(write) && NonNegative(read)
    && write.length == length && write.stride == s && read.stride == t
    && FastPath(write, read) && ExtentsOverlap(write, read)
  }

  ghost predicate AlwaysAgrees(length: nat, s: int, t: int) {
    forall write, read :: TestedPair(write, read, length, s, t) ==> (GcdAlias(write, read) <==> SharesByte(write, read))
  }

  /** The start address of a single access that the second access of a run of stride `s` overlaps in part, and the run. */
  function PartialPair(length: nat, s: int): (MemSetEntry, int)
    requires length > 0
  {
    var k := s / length;
    if s >= 0 then (MemSetEntry(0, s, length, 0, 1), length * (k + 1))
    else (MemSetEntry(length * -k, s, length, 0, 1), 0)
  }

  lemma PartialPairMisses(length: nat, s: int, t: int)
    requires length > 0 && !Divides(length, s)
    ensures var (run, addr) := PartialPair(length, s);
            var single := MemSetEntry(addr, t, length, 0, 0);
            && TestedPair(run, single, length, s, t) && TestedPair(single, run, length, t, s)
            && SharesByte(run, single) && !SharesBase(run, single)
            && SharesByte(single, run) && !SharesBase(single, run)
  {
    hide SharesByte, SharesBase, PartialPair;
    PartialPairPlace(length, s);
    var (run, addr) := PartialPair(length, s);
    var single := MemSetEntry(addr, t, length, 0, 0);
    assert run.AccessLower(0) == run.base && run.AccessLower(1) == run.base + s && single.AccessLower(0) == addr;
    OverlapsSecond(run, single);
    OverlapsSecond(single, run);
  }

  /** Both are aligned and not negative, and the single access starts within the length of the second one. */
  lemma PartialPairPlace(length: nat, s: int)
    requires length > 0 && !Divides(length, s)
    ensures var (run, addr) := PartialPair(length, s);
            && run == MemSetEntry(run.base, s, length, 0, 1) && Divides(length, run.base) && Divides(length, addr)
            && run.base >= 0 && run.base + s >= 0 && addr >= 0
            && addr != run.base && addr != run.base + s && run.base + s < addr + length && addr < run.base + s + length
  {
    var k, rem := s / length, s % length;
    assert s == length * k + rem && 0 < rem < length;
    MultipleDivides(length, 0);
    if s < 0 {
      assert k < 0 by { if k >= 0 { MulMonotone(length, k, 0); } }
      NegatedMultiple(length, k);
    } else {
      assert k >= 0 by { if k < 0 { MulNeg(length, k); } }
      Distribute(length, k, 1);
      MulPos(length, k + 1);
      MultipleDivides(length, k + 1);
    }
  }

  lemma NegatedMultiple(length: nat, k: int)
    requires length > 0 && k < 0
    ensures length * -k == -(length * k) && length * -k >= length && Divides(length, length * -k)
  {
    MulPos(length, -k);
    MultipleDivides(length, -k);
  }

  /** The second access of a two-access run and a single access overlap without coinciding, as do neither of the starts. */
  lemma OverlapsSecond(a: MemSetEntry, b: MemSetEntry)
    requires a.Proper() && b.Proper() && 1 <= a.NumInstances() <= 2 && 1 <= b.NumInstances() <= 2
    requires var i, j := a.NumInstances() - 1, b.NumInstances() - 1; Touch(a, i, b, j)
    requires forall i, j :: 0 <= i < a.NumInstances() && 0 <= j < b.NumInstances() ==> !SameBase(a, i, b, j)
    ensures SharesByte(a, b) && !SharesBase(a, b)
  {
  }

  /**
   For an access length and two strides, the fast path agrees with the quadratic search on all entries that
   isAlias may be called with if and only if the length divides both strides.
   */
  lemma WholeStridesExact(length: nat, s: int, t: int)
    requires length > 0
    ensures AlwaysAgrees(length, s, t) <==> Divides(length, s) && Divides(length, t)
  {
    hide GcdAlias, SharesByte, SharesBase;
    if Divides(length, s) && Divides(length, t) {
      forall write, read | TestedPair(write, read, length, s, t)
        ensures GcdAlias(write, read) <==> SharesByte(write, read)
      {
        GcdAliasAgrees(write, read);
      }
    } else if !Divides(length, s) {
      PartialPairMisses(length, s, t);
      var (run, addr) := PartialPair(length, s);
      GcdAliasFindsBases(run, MemSetEntry(addr, t, length, 0, 0));
    } else {
      PartialPairMisses(length, t, s);
      var (run, addr) := PartialPair(length, t);
      GcdAliasFindsBases(MemSetEntry(addr, s, length, 0, 0), run);
    }
  }

  // ---------- the fast path in machine arithmetic ----------

  /** What dynamic_gcd needs of its arguments for every word but the signed product to fit. */
  predicate WordSized(write: MemSetEntry, read: MemSetEntry) {
    var w, r := GcdForm(write, write.length), GcdForm(read, write.length);
    && w.stride > 0 && r.stride > 0 && w.Last() >= 0 && r.Last() >= 0
    && Fits(w.stride, r.stride) && RoomAbove(w.Last(), r.Last(), w.stride, r.stride)
  }

  predicate GcdAliasWord(write: MemSetEntry, read: MemSetEntry)
    requires write.Proper() && read.Proper() && NonNegative(write) && NonNegative(read) && WordSized(write, read)
  {
    var w, r := GcdForm(write, write.length), GcdForm(read, write.length);
    GcdFormShape(write, write.length);
    GcdFormShape(read, write.length);
    FitsSwap(w.stride, r.stride);
    LcmWordFits(w.stride, r.stride);
    LcmWordFits(r.stride, w.stride);
    IntersectStridesWord(w.base, r.base, w.Last(), r.Last(), w.stride, r.stride).count > 0
  }

  /** The condition of the two runs under which dynamic_gcd answers right in machine words. */
  predicate WordReliable(write: MemSetEntry, read: MemSetEntry)
    requires write.Proper() && read.Proper() && NonNegative(write) && NonNegative(read) && WordSized(write, read)
  {
    var w, r := GcdForm(write, write.length), GcdForm(read, write.length);
    GcdFormShape(write, write.length);
    GcdFormShape(read, write.length);
    FitsSwap(w.stride, r.stride);
    LcmWordFits(w.stride, r.stride);
    LcmWordFits(r.stride, w.stride);
    IntersectReliable(w.base, r.base, w.Last(), r.Last(), w.stride, r.stride)
  }

  /** In machine words the fast path finds the common start addresses if and only if the words are reliable. */
  lemma GcdAliasWordExact(write: MemSetEntry, read: MemSetEntry)
    requires write.Proper() && read.Proper() && NonNegative(write) && NonNegative(read) && WordSized(write, read)
    ensures (GcdAliasWord(write, read) <==> SharesBase(write, read)) <==> WordReliable(write, read)
    ensures FastPath(write, read) && WholeStrides(write, read) ==>
              ((GcdAliasWord(write, read) <==> SharesByte(write, read)) <==> WordReliable(write, read))
  {
    hide IntersectStrides, IntersectStridesWord, IntersectReliable, SharesByte, SharesBase, FastPath, WholeStrides, Fits, RoomAbove;
    var w, r := GcdForm(write, write.length), GcdForm(read, write.length);
    GcdFormShape(write, write.length);
    GcdFormShape(read, write.length);
    GcdAliasFindsBases(write, read);
    IntersectCountExact(w.base, r.base, w.Last(), r.Last(), w.stride, r.stride);
    if FastPath(write, read) && WholeStrides(write, read) {
      SharesByteIsSharesBase(write, read);
    }
  }

  /** With whole strides, overlapping byte extents mean overlapping ranges of start addresses. */
  lemma RangesOverlap(write: MemSetEntry, read: MemSetEntry)
    requires write.Proper() && read.Proper() && NonNegative(write) && NonNegative(read)
    requires FastPath(write, read) && WholeStrides(write, read) && ExtentsOverlap(write, read)
    ensures GcdForm(write, write.length).base <= GcdForm(read, write.length).Last()
    ensures GcdForm(read, write.length).base <= GcdForm(write, write.length).Last()
  {
    GcdFormShape(write, write.length);
    GcdFormShape(read, write.length);
    OrderedAligned(write, read);
    OrderedAligned(read, write);
  }

  lemma OrderedAligned(a: MemSetEntry, b: MemSetEntry)
    requires a.Proper() && b.Proper() && FastPath(a, b) && WholeStrides(a, b)
    requires a.LowerExtent() <= b.UpperExtent()
    ensures a.LowerExtent() <= b.UpperExtent() - (b.length - 1)
  {
    ExtentsReached(a);
    ExtentsReached(b);
    AccessAligned(a, if a.stride >= 0 then 0 else a.end - a.start);
    AccessAligned(b, if b.stride >= 0 then b.end - b.start else 0);
    var lo, hi := a.LowerExtent(), b.UpperExtent() - (b.length - 1);
    if lo > hi {
      DividesDifference(a.length, lo, hi);
      var k := (lo - hi) / a.length;
      if k <= 0 { MulSign(a.length, k); } else { MulPos(a.length, k); }
    }
  }

  /** Entries of one length, aligned and with whole strides, whose normal forms have these lower ends and strides. */
  ghost predicate WordPair(write: MemSetEntry, read: MemSetEntry, length: nat, low1: nat, stride1: nat, low2: nat, stride2: nat) {
    && write.Proper() && read.Proper() && NonNegative(write) && NonNegative(read)
    && write.length == length && FastPath(write, read) && WholeStrides(write, read) && ExtentsOverlap(write, read)
    && GcdForm(write, length).base == low1 && GcdForm(write, length).stride == stride1
    && GcdForm(read, length).base == low2 && GcdForm(read, length).stride == stride2
    && WordSized(write, read)
  }

  /** Whatever the numbers of accesses, the machine answer is that of the quadratic search. */
  ghost predicate WordsAlwaysRight(length: nat, low1: nat, stride1: nat, low2: nat, stride2: nat) {
    forall write, read :: WordPair(write, read, length, low1, stride1, low2, stride2) ==>
      (GcdAliasWord(write, read) <==> SharesByte(write, read))
  }

  /** What can be checked on the lower ends and the strides before the call. */
  predicate PairReliable(low1: nat, low2: nat, stride1: nat, stride2: nat)
    requires stride1 > 0 && stride2 > 0
  {
    if low2 < low1 then EndsReliable(low2, low1, stride2, stride1) else EndsReliable(low1, low2, stride1, stride2)
  }

  /** The upper end of a normal form is an element of its progression. */
  lemma LastIsElement(e: MemSetEntry, length: nat) returns (n: nat)
    requires e.Proper() && NonNegative(e) && length > 0
    ensures var m := GcdForm(e, length); m.base >= 0 && m.stride > 0 && m.Last() == m.base + n * m.stride
  {
    GcdFormShape(e, length);
    var m := GcdForm(e, length);
    n := m.end - m.start;
  }

  lemma ReliablePairRight(write: MemSetEntry, read: MemSetEntry, length: nat, low1: nat, stride1: nat, low2: nat, stride2: nat)
    requires stride1 > 0 && stride2 > 0 && Fits(stride1, stride2) && length > 0
    requires LcmWord(stride1, stride2) > 0 && LcmWord(stride2, stride1) > 0
    requires WordPair(write, read, length, low1, stride1, low2, stride2) && PairReliable(low1, low2, stride1, stride2)
    ensures GcdAliasWord(write, read) <==> SharesByte(write, read)
  {
    hide SharesByte, FastPath, WholeStrides, ExtentsOverlap, EndsReliable, Overlap, OverlapWord, Fits, LcmWord, GcdForm, RoomAbove;
    GcdAliasAgrees(write, read);
    RangesOverlap(write, read);
    var n1 := LastIsElement(write, length);
    var n2 := LastIsElement(read, length);
    FitsSwap(stride1, stride2);
    RoomSwap(stride1, stride2);
    if low2 < low1 {
      ShortByLessRight(low2, low1, stride2, stride1, n2, n1);
    } else {
      ShortByLessRight(low1, low2, stride1, stride2, n1, n2);
    }
  }

  /** Two runs with `n1 + 1` and `n2 + 1` accesses are a pair that isAlias may be called with. */
  lemma RunsArePair(length: nat, low1: nat, stride1: nat, n1: nat, low2: nat, stride2: nat, n2: nat)
    requires length > 0 && stride1 > 0 && stride2 > 0 && Fits(stride1, stride2)
    requires Divides(length, low1) && Divides(length, low2) && Divides(length, stride1) && Divides(length, stride2)
    requires low2 <= low1 + n1 * stride1 && low1 <= low2 + n2 * stride2
    requires RoomAbove(low1 + n1 * stride1, low2 + n2 * stride2, stride1, stride2)
    ensures WordPair(MemSetEntry(low1, stride1, length, 0, n1), MemSetEntry(low2, stride2, length, 0, n2), length, low1, stride1, low2, stride2)
  {
    hide Fits, RoomAbove;
    assert n1 * stride1 == stride1 * n1 >= 0 && n2 * stride2 == stride2 * n2 >= 0;
  }

  /**
   For given lower ends and strides, the fast path in machine words agrees with the quadratic search, whatever the
   numbers of accesses, if and only if the pair is reliable.
   */
  lemma WordsReliableExact(length: nat, low1: nat, stride1: nat, low2: nat, stride2: nat)
    requires length > 0 && stride1 > 0 && stride2 > 0 && Fits(stride1, stride2)
    requires Divides(length, low1) && Divides(length, low2) && Divides(length, stride1) && Divides(length, stride2)
    requires low1 + 2 * (stride1 * stride2) < TWO_64 && low2 + 2 * (stride1 * stride2) < TWO_64
    ensures LcmWord(stride1, stride2) > 0 && LcmWord(stride2, stride1) > 0
    ensures WordsAlwaysRight(length, low1, stride1, low2, stride2) <==> PairReliable(low1, low2, stride1, stride2)
  {
    hide SharesByte, EndsReliable, Overlap, OverlapWord, Fits, LcmWord, GcdAliasWord, WordPair, RoomAbove, RunRight, Divides;
    FitsSwap(stride1, stride2);
    LcmWordFits(stride1, stride2);
    LcmWordFits(stride2, stride1);
    RoomSwap(stride1, stride2);
    if PairReliable(low1, low2, stride1, stride2) {
      forall write, read | WordPair(write, read, length, low1, stride1, low2, stride2)
        ensures write.Proper() && read.Proper() && NonNegative(write) && NonNegative(read) && WordSized(write, read)
        ensures GcdAliasWord(write, read) <==> SharesByte(write, read)
      {
        PairShape(write, read, length, low1, stride1, low2, stride2);
        ReliablePairRight(write, read, length, low1, stride1, low2, stride2);
      }
    } else if low2 < low1 {
      var n2, n1 := UnreliableRuns(low2, low1, stride2, stride1);
      WrongPair(length, low1, stride1, n1, low2, stride2, n2);
    } else {
      var n1, n2 := UnreliableRuns(low1, low2, stride1, stride2);
      WrongPair(length, low1, stride1, n1, low2, stride2, n2);
    }
  }

  lemma PairShape(write: MemSetEntry, read: MemSetEntry, length: nat, low1: nat, stride1: nat, low2: nat, stride2: nat)
    requires WordPair(write, read, length, low1, stride1, low2, stride2)
    ensures write.Proper() && read.Proper() && NonNegative(write) && NonNegative(read) && WordSized(write, read)
  {
  }

  /** Runs for which the count is wrong are a pair for which the answer is. */
  lemma WrongPair(length: nat, low1: nat, stride1: nat, n1: nat, low2: nat, stride2: nat, n2: nat)
    requires length > 0 && stride1 > 0 && stride2 > 0 && Fits(stride1, stride2)
    requires LcmWord(stride1, stride2) > 0 && LcmWord(stride2, stride1) > 0
    requires Divides(length, low1) && Divides(length, low2) && Divides(length, stride1) && Divides(length, stride2)
    requires low2 <= low1 + n1 * stride1 && low1 <= low2 + n2 * stride2
    requires RoomAbove(low1 + n1 * stride1, low2 + n2 * stride2, stride1, stride2)
    requires if low2 < low1 then !RunRight(low2, low1, stride2, stride1, low2 + n2 * stride2, low1 + n1 * stride1)
             else !RunRight(low1, low2, stride1, stride2, low1 + n1 * stride1, low2 + n2 * stride2)
    ensures var write, read := MemSetEntry(low1, stride1, length, 0, n1), MemSetEntry(low2, stride2, length, 0, n2);
            && WordPair(write, read, length, low1, stride1, low2, stride2)
            && !(GcdAliasWord(write, read) <==> SharesByte(write, read))
  {
    hide SharesByte, EndsReliable, Overlap, OverlapWord, Fits, LcmWord, FastPath, WholeStrides, ExtentsOverlap, RoomAbove, Divides;
    RunsArePair(length, low1, stride1, n1, low2, stride2, n2);
    GcdAliasAgrees(MemSetEntry(low1, stride1, length, 0, n1), MemSetEntry(low2, stride2, length, 0, n2));
  }

  /** The answer of isAlias in machine words, on entries for which dynamic_gcd does not leave a word. */
  ghost predicate AliasSays(write: MemSetEntry, read: MemSetEntry) {
    && write.Proper() && read.Proper() && NonNegative(write) && NonNegative(read)
    && (TakesGcd(write, read) ==> WordSized(write, read))
    && if TakesGcd(write, read) then GcdAliasWord(write, read) else SharesByte(write, read)
  }

  /** isAlias as the machine computes it. */
  method IsAliasWord(write: MemSetEntry, read: MemSetEntry) returns (alias: bool)
    requires write.Proper() && read.Proper() && NonNegative(write) && NonNegative(read)
    requires ExtentsOverlap(write, read)
    requires TakesGcd(write, read) ==> WordSized(write, read)
    ensures alias <==> AliasSays(write, read)
    ensures alias <==>
      if && write.length == read.length && write.base % write.length == 0 && read.base % read.length == 0
         && (write.stride != 0 || read.stride != 0)
      then GcdAliasWord(write, read) else SharesByte(write, read)
  {
    hide GcdAliasWord, SharesByte, SharesBase, ExtentsOverlap, WordSized;
    if write.stride == 0 && read.stride == 0 {
      ConstantsTouch(write, read);
      return true;
    }
    if !FastPath(write, read) {
      alias := IsAliasBruteForce(write, read);
      return;
    }
    alias := GcdAliasWord(write, read);
  }

  /** The answer is that of the byte search off the fast path, and on it for whole strides if and only if the words are reliable. */
  lemma AliasSaysRight(write: MemSetEntry, read: MemSetEntry)
    requires write.Proper() && read.Proper() && NonNegative(write) && NonNegative(read)
    requires TakesGcd(write, read) ==> WordSized(write, read) && WholeStrides(write, read)
    ensures (AliasSays(write, read) <==> SharesByte(write, read)) <==> (TakesGcd(write, read) ==> WordReliable(write, read))
  {
    hide GcdAliasWord, SharesByte, SharesBase, FastPath, WordSized, WordReliable, WholeStrides;
    if TakesGcd(write, read) {
      GcdAliasWordExact(write, read);
    }
  }

  /** Unreliable words can miss an alias: strides 12 and 20, both runs touching address 24. */
  lemma MissedAlias()
    ensures var write, read := MemSetEntry(0, 12, 4, 0, 2), MemSetEntry(4, 20, 4, 0, 1);
            && write.Proper() && read.Proper() && NonNegative(write) && NonNegative(read)
            && FastPath(write, read) && WholeStrides(write, read) && ExtentsOverlap(write, read)
            && WordSized(write, read)
            && SharesByte(write, read) && GcdAlias(write, read) && !GcdAliasWord(write, read) && !AliasSays(write, read)
  {
    hide IntersectStrides, IntersectStridesWord;
    var write, read := MemSetEntry(0, 12, 4, 0, 2), MemSetEntry(4, 20, 4, 0, 1);
    assert Touch(write, 2, read, 1);
    MissedClash();
  }
}
