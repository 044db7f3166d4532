/**
 Intersecting two arithmetic progressions of addresses with the extended Euclidean
 algorithm.
 */
module DynamicGcd {
  import opened Divisibility

  method EuclidGcd(x0: nat, y0: nat) returns (x: nat)
    ensures x == Gcd(x0, y0)
  {
    x := x0;
    var y: nat := y0;
    while y != 0
      invariant Gcd(x, y) == Gcd(x0, y0)
      decreases y
    {
      x, y := y, x % y;
    }
  }

  method EuclidLcm(x: nat, y: nat) returns (m: nat)
    requires x > 0 || y > 0
    ensures m == Lcm(x, y)
  {
    var g := EuclidGcd(x, y);
    var quotient: int := (x * y) / g;
    assert quotient == Lcm(x, y);
    m := quotient;
  }

  /** The pair `(old_s, old_t)` that the extended Euclid loop ends with. */
  function BezoutLoop(oldR: nat, r: nat, oldS: int, s: int, oldT: int, t: int): (int, int)
    decreases r
  {
    if r == 0 then (oldS, oldT)
    else
      var quot := oldR / r;
      BezoutLoop(r, oldR % r, s, oldS - quot * s, t, oldT - quot * t)
  }

  function Bezout(a: nat, b: nat): (int, int) {
    BezoutLoop(a, b, 1, 0, 0, 1)
  }

  method ExtendedEuclid(a: nat, b: nat) returns (x: int, y: int)
    ensures (x, y) == Bezout(a, b)
  {
    var s, oldS := 0, 1;
    var t, oldT := 1, 0;
    var r: int, oldR: int := b, a;
    while r != 0
      invariant r >= 0 && oldR >= 0
      invariant BezoutLoop(oldR, r, oldS, s, oldT, t) == Bezout(a, b)
      decreases r
    {
      var quot := oldR / r;
      assert oldR - quot * r == oldR % r;
      r, oldR := oldR - quot * r, r;
      t, oldT := oldT - quot * t, t;
      s, oldS := oldS - quot * s, s;
    }
    return oldS, oldT;
  }

  lemma Combine(a: int, b: int, oldS: int, s: int, oldT: int, t: int, q: int)
    ensures a * (oldS - q * s) + b * (oldT - q * t) == (a * oldS + b * oldT) - q * (a * s + b * t)
  {
    assert a * (q * s) == q * (a * s) && b * (q * t) == q * (b * t);
  }

  lemma {:induction false} BezoutLoopIdentity(a: nat, b: nat, oldR: nat, r: nat, oldS: int, s: int, oldT: int, t: int)
    requires a * oldS + b * oldT == oldR && a * s + b * t == r
    ensures var (x, y) := BezoutLoop(oldR, r, oldS, s, oldT, t);
            a * x + b * y == Gcd(oldR, r)
    decreases r
  {
    if r != 0 {
      var q := oldR / r;
      Combine(a, b, oldS, s, oldT, t, q);
      assert oldR % r == oldR - q * r;
      BezoutLoopIdentity(a, b, r, oldR % r, s, oldS - q * s, t, oldT - q * t);
    }
  }

  /** Extended Euclid solves `a*x + b*y = gcd(a, b)`. */
  lemma BezoutIdentity(a: nat, b: nat)
    ensures var (x, y) := Bezout(a, b); a * x + b * y == Gcd(a, b)
  {
    BezoutLoopIdentity(a, b, a, b, 1, 0, 0, 1);
  }

  function Abs(n: int): nat {
    if n < 0 then -n else n
  }

  predicate Weighted(a: int, oldR: int, r: int, t: int, oldT: int) {
    oldR * t + r * oldT == a
  }

  lemma {:induction false} BezoutLoopBound(a: nat, oldR: nat, r: nat, oldS: int, s: int, oldT: int, t: int)
    requires oldR > 0 && Weighted(a, oldR, r, Abs(t), Abs(oldT))
    requires (t >= 0 && oldT <= 0) || (t <= 0 && oldT >= 0)
    requires Abs(oldT) <= a
    ensures Abs(BezoutLoop(oldR, r, oldS, s, oldT, t).1) <= a
    decreases r
  {
    if r != 0 {
      hide Weighted;
      var q, n := oldR / r, oldT - (oldR / r) * t;
      MulSigns(q, t);
      BoundStep(a, oldR, r, q, oldR % r, Abs(t), Abs(oldT));
      BezoutLoopBound(a, r, oldR % r, s, oldS - q * s, t, n);
    }
  }

  /** One round of the loop keeps the weighted sum of the two coefficients. */
  lemma BoundStep(a: nat, oldR: nat, r: nat, q: nat, rem: nat, t: nat, oldT: nat)
    requires oldR > 0 && oldR == r * q + rem && Weighted(a, oldR, r, t, oldT)
    ensures Weighted(a, r, rem, oldT + q * t, t)
    ensures t <= a
  {
    Associate(r, q, t);
    Distribute(r, oldT, q * t);
    Distribute(t, r * q, rem);
    assert r * oldT >= 0;
    if t > 0 {
      MulPos(oldR, t);
    }
  }

  lemma MulSigns(q: int, t: int)
    requires q >= 0
    ensures t >= 0 ==> q * t == q * Abs(t) >= 0
    ensures t <= 0 ==> q * t == -(q * Abs(t)) <= 0
  {
    if t < 0 {
      assert q * t == -(q * -t);
    }
  }

  /** The coefficient of `b` never exceeds `a`. */
  lemma BezoutBound(a: nat, b: nat)
    requires a > 0
    ensures Abs(Bezout(a, b).1) <= a
  {
    BezoutLoopBound(a, a, b, 1, 0, 0, 1);
  }

  /** When one stride divides the other the coefficient is 0 or 1. */
  lemma BezoutOfDivisor(a: nat, b: nat)
    requires a > 0 && b > 0 && (Divides(a, b) || Divides(b, a))
    ensures Bezout(a, b).1 in {0, 1}
  {
    if Divides(b, a) {
      assert Bezout(a, b) == BezoutLoop(b, 0, 0, 1 - (a / b) * 0, 1, 0 - (a / b) * 1);
    } else {
      if a > b {
        DivUnique(b, a, 0, b);
      } else {
        assert a < b by { if a == b { MultipleDivides(a, 1); } }
      }
      DivUnique(a, b, 0, a);
      assert Bezout(a, b) == BezoutLoop(b, a, 0, 1, 1, 0);
      assert Bezout(a, b) == BezoutLoop(a, 0, 1, 0 - (b / a) * 1, 0, 1 - (b / a) * 0);
    }
  }

  // ---------- intersecting two progressions ----------

  /** Lowest clashing address, stride between clashes, number of clashes. */
  datatype AliasT = AliasT(first: int, step: int, count: int)

  predicate Clashes(r: AliasT, addr: int) {
    r.count > 0 && r.step > 0 && addr >= r.first
    && Divides(r.step, addr - r.first) && (addr - r.first) / r.step < r.count
  }

  predicate InProgression(addr: int, low: int, high: int, stride: int)
    requires stride > 0
  {
    low <= addr <= high && Divides(stride, addr - low)
  }

  function Delta(gap: nat, stride: nat): nat
    requires stride > 0
  {
    (stride - gap % stride) % stride
  }

  function Offset(stride1: nat, stride2: nat, delta: nat): int
    requires stride1 > 0 && stride2 > 0
  {
    var gcd, lcm := Gcd(stride1, stride2), Lcm(stride1, stride2);
    LcmFactors(stride1, stride2);
    ((stride2 * Bezout(stride1, stride2).1 * delta) / gcd + lcm) % lcm
  }

  /** The result for a given offset from `low` of the first common point. */
  function Report(low: nat, length: int, lcm: nat, offset: int): AliasT
    requires lcm > 0
  {
    AliasT(low + offset, lcm, (length - (offset + 1) + lcm) / lcm)
  }

  function Overlap(low1: nat, low2: nat, high1: nat, high2: nat, stride1: nat, stride2: nat): AliasT
    requires stride1 > 0 && stride2 > 0
  {
    var high := if high1 < high2 then high1 else high2;
    var length := high - low2 + 1;
    var delta := Delta(if low1 <= low2 then low2 - low1 else 0, stride1);
    LcmFactors(stride1, stride2);
    var lcm := Lcm(stride1, stride2);
    if delta % Gcd(stride1, stride2) != 0 then AliasT(0, 0, 0)
    else
      var offset := Offset(stride1, stride2, delta);
      Report(low2, length, lcm, offset)
  }

  /** dynamic_gcd over the integers: the two ranges in order of their lower ends. */
  function IntersectStrides(low1: nat, low2: nat, high1: nat, high2: nat, stride1: nat, stride2: nat): AliasT
    requires stride1 > 0 && stride2 > 0
  {
    if low2 < low1 then Overlap(low2, low1, high2, high1, stride2, stride1)
    else Overlap(low1, low2, high1, high2, stride1, stride2)
  }

  /** Delta is the distance from a point to the next element of the progression. */
  lemma DeltaMeets(gap: nat, stride: nat, d: int)
    requires stride > 0
    ensures Delta(gap, stride) < stride
    ensures Divides(stride, gap + d) <==> Divides(stride, d - Delta(gap, stride))
  {
    var r, delta := gap % stride, Delta(gap, stride);
    if r == 0 {
      DivUnique(stride, stride, 1, 0);
      assert delta == 0;
    } else {
      DivUnique(stride - r, stride, 0, stride - r);
    }
    var k := gap / stride + (if r == 0 then 0 else 1);
    assert gap + delta == stride * k by {
      Distribute(stride, gap / stride, if r == 0 then 0 else 1);
    }
    MultipleDivides(stride, k);
    DividesSum(stride, gap + delta, d - delta);
  }

  lemma NoCommonPoint(stride1: nat, stride2: nat, delta: nat, d: int)
    requires stride1 > 0 && stride2 > 0
    requires Divides(stride2, d) && Divides(stride1, d - delta)
    ensures Gcd(stride1, stride2) > 0 && Divides(Gcd(stride1, stride2), delta)
  {
    var g := Gcd(stride1, stride2);
    GcdDivides(stride1, stride2);
    DividesTransitive(g, stride1, d - delta);
    DividesTransitive(g, stride2, d);
    DividesDifference(g, d, d - delta);
  }

  /** The offset solves both congruences. */
  lemma OffsetSolves(stride1: nat, stride2: nat, delta: nat)
    requires stride1 > 0 && stride2 > 0
    requires Gcd(stride1, stride2) > 0 && Divides(Gcd(stride1, stride2), delta)
    ensures var offset := Offset(stride1, stride2, delta);
            && 0 <= offset < Lcm(stride1, stride2)
            && Divides(stride2, offset) && Divides(stride1, offset - delta)
  {
    hide Gcd, Lcm, Bezout, Divides;
    var g, m := Gcd(stride1, stride2), Lcm(stride1, stride2);
    var (x, y) := Bezout(stride1, stride2);
    LcmMultiple(stride1, stride2);
    BezoutIdentity(stride1, stride2);
    var k := delta / g;
    assert delta == g * k by { ExactDivision(g, delta); }
    UnreducedSolves(stride1, stride2, x, y, g, k);
    ExactQuotient(stride2, y, g, k);
    ReducedSolves(stride1, stride2, m, delta, stride2 * (y * k));
  }

  lemma UnreducedSolves(stride1: nat, stride2: nat, x: int, y: int, g: nat, k: int)
    requires stride1 > 0 && stride2 > 0 && stride1 * x + stride2 * y == g
    ensures Divides(stride2, stride2 * (y * k)) && Divides(stride1, stride2 * (y * k) - g * k)
  {
    hide Divides;
    BezoutShift(stride1, stride2, x, y, g, k);
    MultipleDivides(stride2, y * k);
    MultipleDivides(stride1, -(x * k));
  }

  lemma ReducedSolves(stride1: nat, stride2: nat, m: nat, delta: nat, e: int)
    requires stride1 > 0 && stride2 > 0 && m > 0
    requires Divides(stride1, m) && Divides(stride2, m)
    requires Divides(stride2, e) && Divides(stride1, e - delta)
    ensures var offset := (e + m) % m;
            && 0 <= offset < m && Divides(stride2, offset) && Divides(stride1, offset - delta)
  {
    hide Divides;
    var offset := (e + m) % m;
    ReduceModulo(e, m);
    DividesTransitive(stride1, m, e - offset);
    DividesTransitive(stride2, m, e - offset);
    DividesDifference(stride2, e, e - offset);
    DividesDifference(stride1, e - delta, e - offset);
    assert (e - delta) - (e - offset) == offset - delta;
  }

  lemma ReduceModulo(e: int, m: int)
    requires m > 0
    ensures Divides(m, e - (e + m) % m)
  {
    var c := (e + m) / m - 1;
    Distribute(m, (e + m) / m, -1);
    MultipleDivides(m, c);
  }

  lemma ExactQuotient(stride: int, y: int, g: int, k: int)
    requires g > 0
    ensures (stride * y * (g * k)) / g == stride * (y * k)
  {
    assert stride * y * (g * k) == g * (stride * (y * k)) by {
      Interchange(stride, y, g, k);
      assert (stride * g) * (y * k) == g * (stride * (y * k)) by { Associate(g, stride, y * k); }
    }
    MultipleDivides(g, stride * (y * k));
  }

  lemma BezoutShift(a: int, b: int, x: int, y: int, g: int, k: int)
    requires a * x + b * y == g
    ensures b * (y * k) - g * k == a * -(x * k)
  {
    Associate(b, y, k);
    Associate(a, x, k);
    assert g * k == (a * x) * k + (b * y) * k;
    assert a * -(x * k) == -(a * (x * k));
  }

  lemma CommonPoints(stride1: nat, stride2: nat, delta: nat, d: int)
    requires stride1 > 0 && stride2 > 0
    requires Gcd(stride1, stride2) > 0 && Divides(Gcd(stride1, stride2), delta)
    ensures Lcm(stride1, stride2) > 0
    ensures Divides(stride2, d) && Divides(stride1, d - delta)
            <==> Divides(Lcm(stride1, stride2), d - Offset(stride1, stride2, delta))
  {
    hide Gcd, Lcm, Offset, Bezout;
    var m, offset := Lcm(stride1, stride2), Offset(stride1, stride2, delta);
    LcmMultiple(stride1, stride2);
    OffsetSolves(stride1, stride2, delta);
    BezoutIdentity(stride1, stride2);
    if Divides(stride2, d) && Divides(stride1, d - delta) {
      DividesDifference(stride2, d, offset);
      DividesDifference(stride1, d - delta, offset - delta);
      var (x, y) := Bezout(stride1, stride2);
      LcmLeast(stride1, stride2, x, y, d - offset);
    }
    if Divides(m, d - offset) {
      DividesTransitive(stride1, m, d - offset);
      DividesTransitive(stride2, m, d - offset);
      DividesSum(stride2, offset, d - offset);
      DividesSum(stride1, offset - delta, d - offset);
    }
  }

  /** Counting: the multiples of `m` from `offset` that lie below `length`. */
  lemma CountFits(m: nat, offset: int, length: int, d: int)
    requires m > 0 && 0 <= offset < m && length >= 1 && Divides(m, d - offset)
    ensures var count := (length - (offset + 1) + m) / m;
            && count >= 0
            && (0 <= d < length <==> d >= offset && (d - offset) / m < count)
  {
    hide Divides;
    var k := (d - offset) / m;
    ExactDivision(m, d - offset);
    MulByBound(m, length - 1 - offset, k);
    if k < 0 {
      MulNeg(m, k);
    } else {
      MulMonotone(m, k, 0);
    }
  }

  lemma MulByBound(m: int, x: int, k: int)
    requires m > 0 && x >= -m
    ensures var count := (x + m) / m; count >= 0 && (k < count <==> m * k <= x)
  {
    var count := (x + m) / m;
    assert x + m == m * count + (x + m) % m;
    if count < 0 {
      MulNeg(m, count);
    }
    Distribute(m, count, -1);
    if k >= count {
      MulMonotone(m, k, count);
    } else {
      MulMonotone(m, count - 1, k);
    }
  }

  lemma ReportExact(low: nat, length: int, m: nat, offset: int, addr: int)
    requires 0 <= offset < m
    ensures Clashes(Report(low, length, m, offset), addr)
            <==> Divides(m, addr - low - offset) && 0 <= addr - low < length
  {
    assert addr - (low + offset) == addr - low - offset;
    if length < 1 {
      NoneReported(low, length, m, offset);
    } else if Divides(m, addr - low - offset) {
      CountFits(m, offset, length, addr - low);
    }
  }

  /** With no common range nothing is reported. */
  lemma NoneReported(low: nat, length: int, m: nat, offset: int)
    requires 0 <= offset < m && length < 1
    ensures Report(low, length, m, offset).count <= 0
  {
    var x := length - (offset + 1) + m;
    if x / m > 0 {
      MulMonotone(m, x / m, 1);
    }
  }

  lemma OverlapExact(low1: nat, low2: nat, high1: nat, high2: nat, stride1: nat, stride2: nat, addr: int)
    requires stride1 > 0 && stride2 > 0 && low1 <= low2
    ensures Clashes(Overlap(low1, low2, high1, high2, stride1, stride2), addr)
            <==> InProgression(addr, low1, high1, stride1) && InProgression(addr, low2, high2, stride2)
  {
    hide Gcd, Lcm, Offset, Delta, Divides, Report, Clashes;
    var d, gap := addr - low2, low2 - low1;
    var delta, g := Delta(gap, stride1), Gcd(stride1, stride2);
    DeltaMeets(gap, stride1, d);
    assert gap + d == addr - low1;
    LcmFactors(stride1, stride2);
    DividesMeans(g, delta);
    if delta % g != 0 {
      if Divides(stride2, d) && Divides(stride1, d - delta) {
        NoCommonPoint(stride1, stride2, delta, d);
      }
      NothingClashes(addr);
    } else {
      CommonPoints(stride1, stride2, delta, d);
      OffsetSolves(stride1, stride2, delta);
      var length := (if high1 < high2 then high1 else high2) - low2 + 1;
      ReportExact(low2, length, Lcm(stride1, stride2), Offset(stride1, stride2, delta), addr);
    }
  }

  lemma DividesMeans(d: int, n: int)
    requires d > 0
    ensures Divides(d, n) <==> n % d == 0
  {
  }

  lemma NothingClashes(addr: int)
    ensures !Clashes(AliasT(0, 0, 0), addr)
  {
  }

  /** For positive strides, the result is exactly the set of addresses common to both progressions. */
  lemma IntersectStridesExact(low1: nat, low2: nat, high1: nat, high2: nat, stride1: nat, stride2: nat, addr: int)
    requires stride1 > 0 && stride2 > 0
    ensures Clashes(IntersectStrides(low1, low2, high1, high2, stride1, stride2), addr)
            <==> InProgression(addr, low1, high1, stride1) && InProgression(addr, low2, high2, stride2)
  {
    hide Overlap, Clashes, InProgression;
    if low2 < low1 {
      OverlapExact(low2, low1, high2, high1, stride2, stride1, addr);
    } else {
      OverlapExact(low1, low2, high1, high2, stride1, stride2, addr);
    }
  }

  /** A positive count means there is a common address, and the first one is reported. */
  lemma CountPositiveIffCommon(low1: nat, low2: nat, high1: nat, high2: nat, stride1: nat, stride2: nat)
    requires stride1 > 0 && stride2 > 0
    ensures IntersectStrides(low1, low2, high1, high2, stride1, stride2).count > 0
            <==> exists addr :: InProgression(addr, low1, high1, stride1) && InProgression(addr, low2, high2, stride2)
  {
    var r := IntersectStrides(low1, low2, high1, high2, stride1, stride2);
    if r.count > 0 {
      assert r.step > 0 by { LcmFactors(stride1, stride2); LcmFactors(stride2, stride1); }
      MultipleDivides(r.step, 0);
      assert Clashes(r, r.first);
      IntersectStridesExact(low1, low2, high1, high2, stride1, stride2, r.first);
    }
    if addr :| InProgression(addr, low1, high1, stride1) && InProgression(addr, low2, high2, stride2) {
      IntersectStridesExact(low1, low2, high1, high2, stride1, stride2, addr);
    }
  }
}
