/**
 dynamic_gcd as the machine computes it, in unsigned 64-bit words. A negative Bezout
 coefficient wraps around before the division by the gcd, and division does not commute
 with wrapping: this module says exactly when the result is nevertheless right.
 */
module DynamicGcdWord {
  import opened Divisibility
  import opened DynamicGcd

  const TWO_63: nat := 0x8000_0000_0000_0000
  const TWO_64: nat := 0x1_0000_0000_0000_0000

  function Wrap(n: int): nat {
    n % TWO_64
  }

  lemma WrapSame(m: int, n: int, k: int)
    requires m == n + TWO_64 * k
    ensures Wrap(m) == Wrap(n)
  {
    Distribute(TWO_64, n / TWO_64, k);
    DivUnique(m, TWO_64, n / TWO_64 + k, n % TWO_64);
  }

  lemma WrapFits(n: int)
    requires 0 <= n < TWO_64
    ensures Wrap(n) == n
  {
  }

  lemma WrapSum(m: int, n: int)
    ensures Wrap(Wrap(m) + n) == Wrap(m + n)
  {
    WrapSame(m + n, m % TWO_64 + n, m / TWO_64);
  }

  lemma WrapProduct(m: int, n: int)
    ensures Wrap(Wrap(m) * n) == Wrap(m * n) == Wrap(n * Wrap(m))
  {
    var q := m / TWO_64;
    assert m * n == (TWO_64 * q) * n + (m % TWO_64) * n;
    Associate(TWO_64, q, n);
    WrapSame(m * n, (m % TWO_64) * n, q * n);
  }

  /** The strides are words with a sign, and their product, from which the lcm is computed, is a word. */
  predicate Fits(stride1: nat, stride2: nat) {
    stride1 < TWO_63 && stride2 < TWO_63 && stride1 * stride2 < TWO_64
  }

  function SignedProduct(stride1: nat, stride2: nat, delta: nat): int {
    stride2 * Bezout(stride1, stride2).1 * delta
  }

  function LcmWord(x: nat, y: nat): nat
    requires x > 0 || y > 0
  {
    Wrap(x * y) / Gcd(x, y)
  }

  function OffsetWord(stride1: nat, stride2: nat, delta: nat): nat
    requires stride1 > 0 && stride2 > 0 && LcmWord(stride1, stride2) > 0
  {
    var lcm := LcmWord(stride1, stride2);
    var y := Wrap(Bezout(stride1, stride2).1);
    var product := Wrap(Wrap(stride2 * y) * delta);
    Wrap(product / Gcd(stride1, stride2) + lcm) % lcm
  }

  function ReportWord(low: nat, length: nat, lcm: nat, offset: nat): AliasT
    requires lcm > 0
  {
    AliasT(Wrap(low + offset), lcm, Wrap(Wrap(length - Wrap(offset + 1)) + lcm) / lcm)
  }

  function OverlapWord(low1: nat, low2: nat, high1: nat, high2: nat, stride1: nat, stride2: nat): AliasT
    requires stride1 > 0 && stride2 > 0 && LcmWord(stride1, stride2) > 0
  {
    var high := if high1 < high2 then high1 else high2;
    var length := Wrap(high - low2 + 1);
    var delta := Wrap(stride1 - Wrap(low2 - low1) % stride1) % stride1;
    var lcm := LcmWord(stride1, stride2);
    if delta % Gcd(stride1, stride2) != 0 then AliasT(0, 0, 0)
    else
      var offset := OffsetWord(stride1, stride2, delta);
      ReportWord(low2, length, lcm, offset)
  }

  /** dynamic_gcd in machine arithmetic. */
  function IntersectStridesWord(low1: nat, low2: nat, high1: nat, high2: nat, stride1: nat, stride2: nat): AliasT
    requires stride1 > 0 && stride2 > 0
    requires LcmWord(stride1, stride2) > 0 && LcmWord(stride2, stride1) > 0
  {
    if low2 < low1 then OverlapWord(low2, low1, high2, high1, stride2, stride1)
    else OverlapWord(low1, low2, high1, high2, stride1, stride2)
  }

  /** What wrapping the product adds to its quotient by the gcd. */
  function WrapShift(product: int, gcd: int): int
    requires gcd > 0
  {
    -(TWO_64 * (product / TWO_64)) / gcd
  }

  /** What is lost when adding the lcm to the wrapped quotient leaves a word. */
  function CarryShift(product: int, gcd: int, lcm: int): int
    requires gcd > 0
  {
    if Wrap(product) / gcd + lcm >= TWO_64 then TWO_64 else 0
  }

  /** The wrapped quotient is still the right residue: the lcm divides the shift that wrapping causes. */
  predicate WrapHarmless(stride1: nat, stride2: nat, delta: nat)
    requires stride1 > 0 && stride2 > 0
  {
    var gcd, lcm := Gcd(stride1, stride2), Lcm(stride1, stride2);
    LcmFactors(stride1, stride2);
    var product := SignedProduct(stride1, stride2, delta);
    Divides(lcm, WrapShift(product, gcd) - CarryShift(product, gcd, lcm))
  }

  /** How far wrapping moves the offset back, around the lcm. */
  function Fallback(stride1: nat, stride2: nat, delta: nat): (r: nat)
    requires stride1 > 0 && stride2 > 0
    ensures r == 0 <==> WrapHarmless(stride1, stride2, delta)
  {
    var gcd, lcm := Gcd(stride1, stride2), Lcm(stride1, stride2);
    LcmFactors(stride1, stride2);
    var product := SignedProduct(stride1, stride2, delta);
    var shift := WrapShift(product, gcd) - CarryShift(product, gcd, lcm);
    NoFallback(shift, lcm);
    -shift % lcm
  }

  lemma NoFallback(shift: int, lcm: int)
    requires lcm > 0
    ensures -shift % lcm == 0 <==> Divides(lcm, shift)
  {
    hide Divides;
    SameResidue(0, -shift, lcm);
  }

  lemma LcmWordFits(stride1: nat, stride2: nat)
    requires stride1 > 0 && stride2 > 0 && Fits(stride1, stride2)
    ensures LcmWord(stride1, stride2) == Lcm(stride1, stride2) > 0
  {
    LcmFactors(stride1, stride2);
    WrapFits(stride1 * stride2);
  }

  lemma ProductBound(stride1: nat, stride2: nat, delta: nat)
    requires stride1 > 0 && stride2 > 0 && delta < stride1
    ensures Abs(SignedProduct(stride1, stride2, delta)) + stride1 * stride2 <= stride1 * stride2 * stride1
  {
    hide Bezout;
    var y := Bezout(stride1, stride2).1;
    BezoutBound(stride1, stride2);
    SignedProductBound(stride1, stride2, y, delta);
  }

  lemma SignedProductBound(stride1: nat, stride2: nat, y: int, delta: nat)
    requires stride1 > 0 && stride2 > 0 && delta < stride1 && Abs(y) <= stride1
    ensures Abs(stride2 * y * delta) + stride1 * stride2 <= stride1 * stride2 * stride1
  {
    MulSigns(stride2, y);
    MulSigns(delta, stride2 * y);
    MulMonotone(stride2, stride1, Abs(y));
    var p := stride1 * stride2;
    assert Abs(stride2 * y) <= p;
    if delta > 0 {
      MulMonotone(delta, p, Abs(stride2 * y));
    }
    assert p > 0 by { MulPos(stride1, stride2); }
    MulMonotone(p, stride1 - 1, delta);
    Distribute(p, stride1 - 1, 1);
  }

  lemma SameResidue(a: int, b: int, m: int)
    requires m > 0
    ensures a % m == b % m <==> Divides(m, a - b)
  {
    if a % m == b % m {
      Distribute(m, a / m, -(b / m));
      MultipleDivides(m, a / m - b / m);
      assert a - b == m * (a / m - b / m);
    }
    if Divides(m, a - b) {
      var k := (a - b) / m;
      Distribute(m, b / m, k);
      DivUnique(a, m, b / m + k, b % m);
    }
  }

  /** The quotient of a wrapped multiple of the gcd. */
  lemma WrappedQuotient(product: int, g: int, k: int)
    requires g > 0 && product == -(g * k)
    ensures Wrap(product) / g == WrapShift(product, g) - k
  {
    var c := -(TWO_64 * (product / TWO_64));
    var q := c / g;
    assert Wrap(product) == g * (q - k) + c % g by { Distribute(g, q, -k); }
    DivUnique(Wrap(product), g, q - k, c % g);
  }

  lemma WordQuotient(n: int, g: int)
    requires 0 <= n < TWO_64 && g > 0
    ensures 0 <= n / g < TWO_64
  {
    QuotientSmaller(n, g);
  }

  /** Line 76 in machine arithmetic is right if and only if the wrap is harmless. */
  lemma OffsetWordExact(stride1: nat, stride2: nat, delta: nat)
    requires stride1 > 0 && stride2 > 0 && Fits(stride1, stride2)
    requires Gcd(stride1, stride2) > 0 && Divides(Gcd(stride1, stride2), delta)
    ensures LcmWord(stride1, stride2) > 0
    ensures OffsetWord(stride1, stride2, delta) == Offset(stride1, stride2, delta)
            <==> WrapHarmless(stride1, stride2, delta)
  {
    hide Gcd, Lcm, LcmWord, Fits, SignedProduct, Offset, OffsetWord, Divides, WrapShift, CarryShift;
    var a := OffsetResidues(stride1, stride2, delta);
    var g, m, p := Gcd(stride1, stride2), Lcm(stride1, stride2), SignedProduct(stride1, stride2, delta);
    SameResidue(a + (WrapShift(p, g) - CarryShift(p, g, m)), a, m);
  }

  /** Line 76 in machine arithmetic is the exact offset, moved back around the lcm. */
  lemma OffsetFallsBack(stride1: nat, stride2: nat, delta: nat)
    requires stride1 > 0 && stride2 > 0 && Fits(stride1, stride2)
    requires Gcd(stride1, stride2) > 0 && Divides(Gcd(stride1, stride2), delta)
    ensures LcmWord(stride1, stride2) == Lcm(stride1, stride2) > 0
    ensures var offset, fallback := Offset(stride1, stride2, delta), Fallback(stride1, stride2, delta);
            OffsetWord(stride1, stride2, delta) == if fallback <= offset then offset - fallback else offset - fallback + Lcm(stride1, stride2)
  {
    hide Gcd, Lcm, LcmWord, Fits, SignedProduct, Offset, OffsetWord, Divides, WrapShift, CarryShift, WrapHarmless;
    var a := OffsetResidues(stride1, stride2, delta);
    var g, m, p := Gcd(stride1, stride2), Lcm(stride1, stride2), SignedProduct(stride1, stride2, delta);
    ResidueBack(a, WrapShift(p, g) - CarryShift(p, g, m), m);
  }

  /** Both offsets are residues, of numbers that differ by the shift of wrapping. */
  lemma OffsetResidues(stride1: nat, stride2: nat, delta: nat) returns (a: int)
    requires stride1 > 0 && stride2 > 0 && Fits(stride1, stride2)
    requires Gcd(stride1, stride2) > 0 && Divides(Gcd(stride1, stride2), delta)
    ensures LcmWord(stride1, stride2) == Lcm(stride1, stride2) > 0
    ensures Offset(stride1, stride2, delta) == a % Lcm(stride1, stride2)
    ensures var g, m, p := Gcd(stride1, stride2), Lcm(stride1, stride2), SignedProduct(stride1, stride2, delta);
            OffsetWord(stride1, stride2, delta) == (a + (WrapShift(p, g) - CarryShift(p, g, m))) % m
  {
    hide Gcd, Lcm, Bezout, LcmWord, Fits, Wrap, SignedProduct, OffsetWord, Divides, WrapShift, CarryShift;
    LcmWordFits(stride1, stride2);
    LcmBelowWord(stride1, stride2);
    OffsetWordProduct(stride1, stride2, delta);
    SignedProductMeans(stride1, stride2, delta);
    var g, m, p := Gcd(stride1, stride2), Lcm(stride1, stride2), SignedProduct(stride1, stride2, delta);
    var k := ProductIsMultiple(stride1, stride2, delta);
    WrappedQuotient(p, g, k);
    WrapRange(p);
    WordQuotient(Wrap(p), g);
    WrappedSum(p, g, k, m);
    a := -k + m;
  }

  lemma WrappedSum(product: int, g: int, k: int, m: int)
    requires g > 0 && 0 < m < TWO_64 && 0 <= Wrap(product) / g < TWO_64 && Wrap(product) / g == WrapShift(product, g) - k
    ensures Wrap(Wrap(product) / g + m) == -k + m + (WrapShift(product, g) - CarryShift(product, g, m))
  {
    hide WrapShift, Wrap;
    WrapOnce(Wrap(product) / g + m);
  }

  lemma ResidueBack(a: int, shift: int, m: int)
    requires m > 0
    ensures (a + shift) % m == if -shift % m <= a % m then a % m - -shift % m else a % m - -shift % m + m
  {
    var r := a % m - -shift % m;
    var q := a / m - -shift / m;
    Distribute(m, a / m, -(-shift / m));
    assert a + shift == m * q + r;
    if r >= 0 {
      DivUnique(a + shift, m, q, r);
    } else {
      Distribute(m, q, -1);
      DivUnique(a + shift, m, q - 1, r + m);
    }
  }

  lemma WrapRange(n: int)
    ensures 0 <= Wrap(n) < TWO_64
  {
  }

  lemma WrapOnce(n: int)
    requires 0 <= n < 2 * TWO_64
    ensures Wrap(n) == if n >= TWO_64 then n - TWO_64 else n
  {
  }

  lemma LcmBelowWord(stride1: nat, stride2: nat)
    requires stride1 > 0 && stride2 > 0 && Fits(stride1, stride2)
    ensures 0 < Lcm(stride1, stride2) < TWO_64
  {
    LcmFactors(stride1, stride2);
  }

  /** With small strides the product wraps at most once, and the condition is about the word size alone. */
  lemma HarmlessForSmallStrides(stride1: nat, stride2: nat, delta: nat)
    requires stride1 > 0 && stride2 > 0 && delta < stride1 && stride1 * stride2 * stride1 < TWO_64
    ensures Gcd(stride1, stride2) > 0 && Lcm(stride1, stride2) > 0
    ensures WrapHarmless(stride1, stride2, delta)
            <==> var product := SignedProduct(stride1, stride2, delta);
                 || product >= 0
                 || Divides(Lcm(stride1, stride2), TWO_64 / Gcd(stride1, stride2))
                 || (Gcd(stride1, stride2) == 1 && -product <= Lcm(stride1, stride2))
  {
    hide Gcd, Lcm, Bezout, SignedProduct;
    LcmFactors(stride1, stride2);
    ProductBound(stride1, stride2, delta);
    var g, m, p := Gcd(stride1, stride2), Lcm(stride1, stride2), SignedProduct(stride1, stride2, delta);
    MultipleDivides(m, 0);
    if p >= 0 {
      WrapFits(p);
      QuotientSmaller(p, g);
      DivUnique(0, g, 0, 0);
    } else {
      DivUnique(p, TWO_64, -1, TWO_64 + p);
      if g == 1 {
        DivUnique(TWO_64 + p, 1, TWO_64 + p, 0);
        DivUnique(TWO_64, 1, TWO_64, 0);
      } else {
        HalfWords(TWO_64 + p, g, m);
      }
    }
  }

  lemma HalfWords(n: int, g: int, m: int)
    requires g >= 2 && m > 0 && g * m < TWO_64 && 0 <= n < TWO_64
    ensures n / g + m < TWO_64
  {
    var q := n / g;
    assert q >= 0 by { if q < 0 { MulNeg(g, q); } }
    MulMonotone(q + m, g, 2);
    Distribute(g, q, m);
    assert g * (q + m) < 2 * TWO_64;
  }

  lemma SignedProductMeans(stride1: nat, stride2: nat, delta: nat)
    ensures SignedProduct(stride1, stride2, delta) == stride2 * Bezout(stride1, stride2).1 * delta
  {
  }

  lemma ProductIsMultiple(stride1: nat, stride2: nat, delta: nat) returns (k: int)
    requires stride1 > 0 && stride2 > 0
    requires Gcd(stride1, stride2) > 0 && Divides(Gcd(stride1, stride2), delta)
    ensures var g, p := Gcd(stride1, stride2), SignedProduct(stride1, stride2, delta);
            p == -(g * k) && p / g == -k
  {
    hide Gcd, Bezout;
    var g, y := Gcd(stride1, stride2), Bezout(stride1, stride2).1;
    k := -(stride2 * (y * (delta / g)));
    ExactDivision(g, delta);
    ExactQuotient(stride2, y, g, delta / g);
    NegatedProduct(stride2, y, g, delta / g);
  }

  lemma QuotientSmaller(p: int, g: int)
    requires p >= 0 && g > 0
    ensures 0 <= p / g <= p
  {
    var q := p / g;
    if q < 0 { MulNeg(g, q); }
    if q > 0 { MulPos(g, q); }
  }

  lemma NegatedProduct(a: int, y: int, g: int, k: int)
    ensures a * y * (g * k) == -(g * -(a * (y * k)))
  {
    Interchange(a, y, g, k);
    Interchange(g, 1, a, y * k);
    assert (a * g) * (y * k) == g * (a * (y * k)) by { Associate(g, a, y * k); }
  }

  lemma OffsetWordProduct(stride1: nat, stride2: nat, delta: nat)
    requires stride1 > 0 && stride2 > 0 && LcmWord(stride1, stride2) > 0
    ensures OffsetWord(stride1, stride2, delta)
            == Wrap(Wrap(SignedProduct(stride1, stride2, delta)) / Gcd(stride1, stride2) + LcmWord(stride1, stride2))
               % LcmWord(stride1, stride2)
  {
    var y := Bezout(stride1, stride2).1;
    WrapProduct(y, stride2);
    WrapProduct(stride2 * y, delta);
  }

  // ---------- the whole intersection ----------

  /** Adding one more lcm to either end of a range stays within a word. */
  predicate RoomAbove(high1: nat, high2: nat, stride1: nat, stride2: nat) {
    high1 + stride1 * stride2 < TWO_64 && high2 + stride1 * stride2 < TWO_64
  }

  /** The number of addresses from the higher of the lower ends to the lower of the higher ends; not positive if there is none. */
  function Room(low2: nat, high1: nat, high2: nat): int {
    (if high1 < high2 then high1 else high2) - low2 + 1
  }

  /** A machine count is positive: the offset is in the common range, or the count itself has wrapped. */
  predicate Reported(room: int, lcm: nat, offset: nat) {
    offset < room || room + lcm <= offset
  }

  /** The machine finds a clash exactly when there is one. */
  predicate CountReliable(low1: nat, low2: nat, high1: nat, high2: nat, stride1: nat, stride2: nat)
    requires stride1 > 0 && stride2 > 0 && low1 <= low2 && LcmWord(stride1, stride2) > 0
  {
    var delta, room := Delta(low2 - low1, stride1), Room(low2, high1, high2);
    delta % Gcd(stride1, stride2) != 0
    || (Offset(stride1, stride2, delta) < room
        <==> Reported(room, LcmWord(stride1, stride2), OffsetWord(stride1, stride2, delta)))
  }

  /** What a caller can check without the ranges' higher ends: no common point in reach, or the wrap is harmless. */
  predicate OffsetReliable(low1: nat, low2: nat, stride1: nat, stride2: nat)
    requires stride1 > 0 && stride2 > 0 && low1 <= low2
  {
    var delta := Delta(low2 - low1, stride1);
    delta % Gcd(stride1, stride2) != 0 || WrapHarmless(stride1, stride2, delta)
  }

  /** The count of a machine report, for any offset and even for ranges that do not meet. */
  lemma ReportWordFinds(low: nat, room: int, lcm: nat, offset: nat)
    requires offset < lcm && room + lcm <= TWO_64 && low + lcm < TWO_64 && 1 - room <= low
    ensures var r := ReportWord(low, Wrap(room), lcm, offset);
            && r.first == low + offset && r.step == lcm && (r.count > 0 <==> Reported(room, lcm, offset))
            && (offset < room ==> r == Report(low, room, lcm, offset))
  {
    hide Wrap, Reported;
    WrapFits(low + offset);
    WrapFits(offset + 1);
    WrapSum(room, -(offset + 1));
    WrapSum(room - (offset + 1), lcm);
    WrappedCount(room, lcm, offset);
  }

  lemma WrappedCount(room: int, lcm: nat, offset: nat)
    requires offset < lcm && room + lcm <= TWO_64 && lcm - TWO_64 <= room - (offset + 1) + lcm
    ensures var x := room - (offset + 1) + lcm;
            && (Wrap(x) / lcm > 0 <==> Reported(room, lcm, offset))
            && (offset < room ==> Wrap(x) == x)
  {
    var x := room - (offset + 1) + lcm;
    if x >= 0 {
      WrapFits(x);
      QuotientPositive(x, lcm);
    } else {
      WrapSame(x + TWO_64, x, 1);
      WrapFits(x + TWO_64);
      QuotientPositive(x + TWO_64, lcm);
    }
  }

  lemma QuotientPositive(n: int, m: int)
    requires n >= 0 && m > 0
    ensures n / m > 0 <==> n >= m
  {
    var q := n / m;
    if q > 0 {
      MulPos(m, q);
    } else {
      MulSign(m, q);
    }
  }

  lemma ReportFinds(low: nat, room: int, lcm: nat, offset: nat)
    requires offset < lcm
    ensures Report(low, room, lcm, offset).count > 0 <==> offset < room
  {
    if room < 1 {
      NoneReported(low, room, lcm, offset);
    } else {
      QuotientPositive(room - (offset + 1) + lcm, lcm);
    }
  }

  /** The two computations side by side. */
  lemma OverlapParts(low1: nat, low2: nat, high1: nat, high2: nat, stride1: nat, stride2: nat)
    requires stride1 > 0 && stride2 > 0 && low1 <= low2 <= high2
    requires Fits(stride1, stride2) && RoomAbove(high1, high2, stride1, stride2)
    ensures LcmWord(stride1, stride2) == Lcm(stride1, stride2) > 0 && Gcd(stride1, stride2) > 0
    ensures var delta, lcm, room := Delta(low2 - low1, stride1), Lcm(stride1, stride2), Room(low2, high1, high2);
            && room + lcm <= TWO_64 && low2 + lcm < TWO_64 && 1 - room <= low2
            && if delta % Gcd(stride1, stride2) != 0 then
                 && Overlap(low1, low2, high1, high2, stride1, stride2) == AliasT(0, 0, 0)
                 && OverlapWord(low1, low2, high1, high2, stride1, stride2) == AliasT(0, 0, 0)
               else
                 && 0 <= Offset(stride1, stride2, delta) < lcm && OffsetWord(stride1, stride2, delta) < lcm
                 && Overlap(low1, low2, high1, high2, stride1, stride2)
                    == Report(low2, room, lcm, Offset(stride1, stride2, delta))
                 && OverlapWord(low1, low2, high1, high2, stride1, stride2)
                    == ReportWord(low2, Wrap(room), lcm, OffsetWord(stride1, stride2, delta))
  {
    hide Gcd, Lcm, LcmWord, Offset, OffsetWord, Delta, Wrap, Report, ReportWord, Divides;
    LcmWordFits(stride1, stride2);
    LcmFactors(stride1, stride2);
    var delta := Delta(low2 - low1, stride1);
    DeltaWord(low2 - low1, stride1);
    if delta % Gcd(stride1, stride2) == 0 {
      assert Divides(Gcd(stride1, stride2), delta) by { DividesMeans(Gcd(stride1, stride2), delta); }
      OffsetSolves(stride1, stride2, delta);
      OffsetWordRange(stride1, stride2, delta);
    }
  }

  /** The machine finds a clash exactly when there is one, if and only if the count is reliable. */
  lemma OverlapCountExact(low1: nat, low2: nat, high1: nat, high2: nat, stride1: nat, stride2: nat)
    requires stride1 > 0 && stride2 > 0 && low1 <= low2 <= high2
    requires Fits(stride1, stride2) && RoomAbove(high1, high2, stride1, stride2)
    ensures LcmWord(stride1, stride2) > 0
    ensures (OverlapWord(low1, low2, high1, high2, stride1, stride2).count > 0
             <==> Overlap(low1, low2, high1, high2, stride1, stride2).count > 0)
            <==> CountReliable(low1, low2, high1, high2, stride1, stride2)
  {
    hide Gcd, Lcm, LcmWord, Fits, Offset, OffsetWord, Delta, Wrap, Report, ReportWord, Overlap, OverlapWord, Room;
    OverlapParts(low1, low2, high1, high2, stride1, stride2);
    var delta, lcm, room := Delta(low2 - low1, stride1), Lcm(stride1, stride2), Room(low2, high1, high2);
    if delta % Gcd(stride1, stride2) == 0 {
      ReportFinds(low2, room, lcm, Offset(stride1, stride2, delta));
      ReportWordFinds(low2, room, lcm, OffsetWord(stride1, stride2, delta));
    }
  }

  ghost predicate SameClashes(r: AliasT, s: AliasT) {
    forall addr :: Clashes(r, addr) <==> Clashes(s, addr)
  }

  /** Reported clashes determine the first of them. */
  lemma FirstClash(r: AliasT, s: AliasT)
    requires r.step > 0 && s.step > 0 && SameClashes(r, s)
    ensures r.count > 0 <==> s.count > 0
    ensures r.count > 0 ==> r.first == s.first
  {
    MultipleDivides(r.step, 0);
    MultipleDivides(s.step, 0);
    DivUnique(0, r.step, 0, 0);
    DivUnique(0, s.step, 0, 0);
    assert r.count > 0 ==> Clashes(r, r.first);
    assert s.count > 0 ==> Clashes(s, s.first);
  }

  /**
   The machine result denotes the exact set of common addresses if and only if no common point is in
   reach, or neither computation finds one, or both do and the wrap is harmless.
   */
  lemma OverlapClashesExact(low1: nat, low2: nat, high1: nat, high2: nat, stride1: nat, stride2: nat)
    requires stride1 > 0 && stride2 > 0 && low1 <= low2 <= high2
    requires Fits(stride1, stride2) && RoomAbove(high1, high2, stride1, stride2)
    ensures LcmWord(stride1, stride2) > 0
    ensures SameClashes(OverlapWord(low1, low2, high1, high2, stride1, stride2),
                        Overlap(low1, low2, high1, high2, stride1, stride2))
            <==> && CountReliable(low1, low2, high1, high2, stride1, stride2)
                 && (Overlap(low1, low2, high1, high2, stride1, stride2).count > 0
                     ==> OffsetReliable(low1, low2, stride1, stride2))
  {
    hide Gcd, Lcm, LcmWord, Fits, Offset, OffsetWord, WrapHarmless, Delta, Wrap, Report, ReportWord, Divides, Room,
      Overlap, OverlapWord, CountReliable, Clashes;
    OverlapParts(low1, low2, high1, high2, stride1, stride2);
    OverlapCountExact(low1, low2, high1, high2, stride1, stride2);
    var delta, lcm, room := Delta(low2 - low1, stride1), Lcm(stride1, stride2), Room(low2, high1, high2);
    var s, r := Overlap(low1, low2, high1, high2, stride1, stride2), OverlapWord(low1, low2, high1, high2, stride1, stride2);
    if delta % Gcd(stride1, stride2) == 0 {
      assert Divides(Gcd(stride1, stride2), delta) by { DividesMeans(Gcd(stride1, stride2), delta); }
      OffsetWordExact(stride1, stride2, delta);
      ReportFinds(low2, room, lcm, Offset(stride1, stride2, delta));
      ReportWordFinds(low2, room, lcm, OffsetWord(stride1, stride2, delta));
      ReportShape(low2, room, lcm, Offset(stride1, stride2, delta));
      if SameClashes(r, s) {
        FirstClash(r, s);
      } else {
        NothingSame(r, s);
      }
    }
  }

  lemma ReportShape(low: nat, length: int, lcm: nat, offset: int)
    requires lcm > 0
    ensures var r := Report(low, length, lcm, offset); r.first == low + offset && r.step == lcm
  {
  }

  lemma NothingSame(r: AliasT, s: AliasT)
    ensures r.count <= 0 && s.count <= 0 ==> SameClashes(r, s)
    ensures r == s ==> SameClashes(r, s)
  {
  }

  lemma OffsetWordRange(stride1: nat, stride2: nat, delta: nat)
    requires stride1 > 0 && stride2 > 0 && LcmWord(stride1, stride2) > 0
    ensures OffsetWord(stride1, stride2, delta) < LcmWord(stride1, stride2)
  {
  }

  lemma DeltaWord(gap: nat, stride: nat)
    requires 0 < stride < TWO_64 && gap < TWO_64
    ensures Wrap(stride - Wrap(gap) % stride) % stride == Delta(gap, stride) < stride
  {
    WrapFits(gap);
    WrapFits(stride - gap % stride);
  }

  /** The machine's answer to whether there is a clash is right if and only if the count is reliable. */
  lemma IntersectCountExact(low1: nat, low2: nat, high1: nat, high2: nat, stride1: nat, stride2: nat)
    requires stride1 > 0 && stride2 > 0 && low1 <= high1 && low2 <= high2
    requires Fits(stride1, stride2) && RoomAbove(high1, high2, stride1, stride2)
    ensures LcmWord(stride1, stride2) > 0 && LcmWord(stride2, stride1) > 0
    ensures (IntersectStridesWord(low1, low2, high1, high2, stride1, stride2).count > 0
             <==> IntersectStrides(low1, low2, high1, high2, stride1, stride2).count > 0)
            <==> IntersectReliable(low1, low2, high1, high2, stride1, stride2)
  {
    hide OverlapWord, Overlap, CountReliable, LcmWord, Fits;
    FitsSwap(stride1, stride2);
    LcmWordFits(stride1, stride2);
    LcmWordFits(stride2, stride1);
    if low2 < low1 {
      OverlapCountExact(low2, low1, high2, high1, stride2, stride1);
    } else {
      OverlapCountExact(low1, low2, high1, high2, stride1, stride2);
    }
  }

  /** The count is reliable for the ranges in the order of their lower ends. */
  predicate IntersectReliable(low1: nat, low2: nat, high1: nat, high2: nat, stride1: nat, stride2: nat)
    requires stride1 > 0 && stride2 > 0
    requires LcmWord(stride1, stride2) > 0 && LcmWord(stride2, stride1) > 0
  {
    if low2 < low1 then CountReliable(low2, low1, high2, high1, stride2, stride1)
    else CountReliable(low1, low2, high1, high2, stride1, stride2)
  }

  /** The machine result denotes exactly the common addresses if and only if count and offset are reliable. */
  lemma IntersectStridesWordExact(low1: nat, low2: nat, high1: nat, high2: nat, stride1: nat, stride2: nat)
    requires stride1 > 0 && stride2 > 0 && low1 <= high1 && low2 <= high2
    requires Fits(stride1, stride2) && RoomAbove(high1, high2, stride1, stride2)
    ensures LcmWord(stride1, stride2) > 0 && LcmWord(stride2, stride1) > 0
    ensures (forall addr :: Clashes(IntersectStridesWord(low1, low2, high1, high2, stride1, stride2), addr)
               <==> InProgression(addr, low1, high1, stride1) && InProgression(addr, low2, high2, stride2))
            <==> && IntersectReliable(low1, low2, high1, high2, stride1, stride2)
                 && ((exists addr :: InProgression(addr, low1, high1, stride1) && InProgression(addr, low2, high2, stride2))
                     ==> if low2 < low1 then OffsetReliable(low2, low1, stride2, stride1)
                         else OffsetReliable(low1, low2, stride1, stride2))
  {
    hide Overlap, OverlapWord, OffsetReliable, CountReliable, LcmWord, Fits, Clashes, InProgression, IntersectStrides;
    FitsSwap(stride1, stride2);
    LcmWordFits(stride1, stride2);
    LcmWordFits(stride2, stride1);
    CountPositiveIffCommon(low1, low2, high1, high2, stride1, stride2);
    var r, s := IntersectStridesWord(low1, low2, high1, high2, stride1, stride2),
      IntersectStrides(low1, low2, high1, high2, stride1, stride2);
    forall addr
      ensures Clashes(s, addr) <==> InProgression(addr, low1, high1, stride1) && InProgression(addr, low2, high2, stride2)
    {
      IntersectStridesExact(low1, low2, high1, high2, stride1, stride2, addr);
    }
    IntersectOrdered(low1, low2, high1, high2, stride1, stride2);
    if low2 < low1 {
      OverlapClashesExact(low2, low1, high2, high1, stride2, stride1);
    } else {
      OverlapClashesExact(low1, low2, high1, high2, stride1, stride2);
    }
  }

  lemma IntersectOrdered(low1: nat, low2: nat, high1: nat, high2: nat, stride1: nat, stride2: nat)
    requires stride1 > 0 && stride2 > 0
    ensures IntersectStrides(low1, low2, high1, high2, stride1, stride2)
            == if low2 < low1 then Overlap(low2, low1, high2, high1, stride2, stride1)
               else Overlap(low1, low2, high1, high2, stride1, stride2)
  {
  }

  /** Two checks before the call, either of which makes the answer right: a harmless wrap, or a common range of one lcm. */
  lemma ReliableEnough(low1: nat, low2: nat, high1: nat, high2: nat, stride1: nat, stride2: nat)
    requires stride1 > 0 && stride2 > 0 && low1 <= low2 <= high2 && low2 <= high1
    requires Fits(stride1, stride2) && RoomAbove(high1, high2, stride1, stride2)
    requires OffsetReliable(low1, low2, stride1, stride2) || Room(low2, high1, high2) >= Lcm(stride1, stride2)
    ensures LcmWord(stride1, stride2) > 0 && CountReliable(low1, low2, high1, high2, stride1, stride2)
  {
    hide Gcd, Lcm, LcmWord, Fits, Offset, OffsetWord, WrapHarmless, Delta, Overlap, OverlapWord, Divides;
    OverlapParts(low1, low2, high1, high2, stride1, stride2);
    var delta := Delta(low2 - low1, stride1);
    if delta % Gcd(stride1, stride2) == 0 {
      assert Divides(Gcd(stride1, stride2), delta) by { DividesMeans(Gcd(stride1, stride2), delta); }
      OffsetWordExact(stride1, stride2, delta);
    }
  }

  lemma FitsSwap(stride1: nat, stride2: nat)
    requires Fits(stride1, stride2)
    ensures Fits(stride2, stride1)
  {
    assert stride2 * stride1 == stride1 * stride2;
  }

  // ---------- what can be checked before the call ----------

  /** For these lower ends and strides, the machine answers right whatever the upper ends are. */
  ghost predicate AlwaysFinds(low1: nat, low2: nat, stride1: nat, stride2: nat)
    requires stride1 > 0 && stride2 > 0 && LcmWord(stride1, stride2) > 0
  {
    forall high1: nat, high2: nat :: low2 <= high1 && low2 <= high2 && RoomAbove(high1, high2, stride1, stride2) ==>
      (OverlapWord(low1, low2, high1, high2, stride1, stride2).count > 0
       <==> Overlap(low1, low2, high1, high2, stride1, stride2).count > 0)
  }

  /** Likewise for the set of clashes. */
  ghost predicate AlwaysExact(low1: nat, low2: nat, stride1: nat, stride2: nat)
    requires stride1 > 0 && stride2 > 0 && LcmWord(stride1, stride2) > 0
  {
    forall high1: nat, high2: nat :: low2 <= high1 && low2 <= high2 && RoomAbove(high1, high2, stride1, stride2) ==>
      SameClashes(OverlapWord(low1, low2, high1, high2, stride1, stride2), Overlap(low1, low2, high1, high2, stride1, stride2))
  }

  /** An unreliable offset separates the two computations for some upper end. */
  lemma UnreliableSeparates(low1: nat, low2: nat, stride1: nat, stride2: nat) returns (high: nat)
    requires stride1 > 0 && stride2 > 0 && low1 <= low2 && Fits(stride1, stride2) && low2 + 2 * (stride1 * stride2) < TWO_64
    requires !OffsetReliable(low1, low2, stride1, stride2)
    ensures low2 <= high && RoomAbove(high, high, stride1, stride2) && LcmWord(stride1, stride2) > 0
    ensures !(OverlapWord(low1, low2, high, high, stride1, stride2).count > 0
              <==> Overlap(low1, low2, high, high, stride1, stride2).count > 0)
  {
    hide Gcd, Lcm, LcmWord, Offset, OffsetWord, WrapHarmless, Delta, Wrap, Overlap, OverlapWord, Divides, Fits;
    LcmFactors(stride1, stride2);
    LcmWordFits(stride1, stride2);
    OverlapParts(low1, low2, low2, low2, stride1, stride2);
    var delta := Delta(low2 - low1, stride1);
    assert Divides(Gcd(stride1, stride2), delta) by { DividesMeans(Gcd(stride1, stride2), delta); }
    OffsetWordExact(stride1, stride2, delta);
    var offset, offsetWord := Offset(stride1, stride2, delta), OffsetWord(stride1, stride2, delta);
    high := low2 + if offset < offsetWord then offset else offsetWord;
    OverlapCountExact(low1, low2, high, high, stride1, stride2);
  }

  /**
   The machine finds a clash exactly when there is one, for all upper ends, if and only if the offset is
   reliable for the lower ends and the strides; and then the clashes it denotes are exact as well.
   */
  lemma ReliableExact(low1: nat, low2: nat, stride1: nat, stride2: nat)
    requires stride1 > 0 && stride2 > 0 && low1 <= low2 && Fits(stride1, stride2) && low2 + 2 * (stride1 * stride2) < TWO_64
    ensures LcmWord(stride1, stride2) > 0
    ensures AlwaysFinds(low1, low2, stride1, stride2) <==> OffsetReliable(low1, low2, stride1, stride2)
    ensures AlwaysExact(low1, low2, stride1, stride2) <==> OffsetReliable(low1, low2, stride1, stride2)
  {
    hide LcmWord, OffsetReliable, CountReliable, Overlap, OverlapWord, Fits, SameClashes;
    LcmWordFits(stride1, stride2);
    if OffsetReliable(low1, low2, stride1, stride2) {
      forall high1: nat, high2: nat | low2 <= high1 && low2 <= high2 && RoomAbove(high1, high2, stride1, stride2)
        ensures SameClashes(OverlapWord(low1, low2, high1, high2, stride1, stride2), Overlap(low1, low2, high1, high2, stride1, stride2))
        ensures OverlapWord(low1, low2, high1, high2, stride1, stride2).count > 0
                <==> Overlap(low1, low2, high1, high2, stride1, stride2).count > 0
      {
        ReliableEnough(low1, low2, high1, high2, stride1, stride2);
        OverlapClashesExact(low1, low2, high1, high2, stride1, stride2);
        OverlapCountExact(low1, low2, high1, high2, stride1, stride2);
      }
    } else {
      var high := UnreliableSeparates(low1, low2, stride1, stride2);
      DifferentCounts(low1, low2, high, high, stride1, stride2);
    }
  }

  /** Where the answers differ, so do the sets of clashes. */
  lemma DifferentCounts(low1: nat, low2: nat, high1: nat, high2: nat, stride1: nat, stride2: nat)
    requires stride1 > 0 && stride2 > 0 && low1 <= low2 <= high2
    requires Fits(stride1, stride2) && RoomAbove(high1, high2, stride1, stride2)
    ensures LcmWord(stride1, stride2) > 0
    ensures !(OverlapWord(low1, low2, high1, high2, stride1, stride2).count > 0
              <==> Overlap(low1, low2, high1, high2, stride1, stride2).count > 0)
            ==> !SameClashes(OverlapWord(low1, low2, high1, high2, stride1, stride2), Overlap(low1, low2, high1, high2, stride1, stride2))
  {
    hide LcmWord, OffsetReliable, CountReliable, Overlap, OverlapWord, Fits, SameClashes;
    OverlapCountExact(low1, low2, high1, high2, stride1, stride2);
    OverlapClashesExact(low1, low2, high1, high2, stride1, stride2);
  }

  /** The offset is reliable for the strides in the order of the lower ends. */
  predicate StridesReliable(low1: nat, low2: nat, stride1: nat, stride2: nat)
    requires stride1 > 0 && stride2 > 0
  {
    if low2 < low1 then OffsetReliable(low2, low1, stride2, stride1) else OffsetReliable(low1, low2, stride1, stride2)
  }

  /** The machine result denotes exactly the common addresses, whatever the upper ends of ranges that meet. */
  ghost predicate WordsAlwaysExact(low1: nat, low2: nat, stride1: nat, stride2: nat)
    requires stride1 > 0 && stride2 > 0 && LcmWord(stride1, stride2) > 0 && LcmWord(stride2, stride1) > 0
  {
    forall high1: nat, high2: nat ::
      && low1 <= high1 && low2 <= high2 && low1 <= high2 && low2 <= high1 && RoomAbove(high1, high2, stride1, stride2) ==>
      SameClashes(IntersectStridesWord(low1, low2, high1, high2, stride1, stride2),
                  IntersectStrides(low1, low2, high1, high2, stride1, stride2))
  }

  /** Its count is positive exactly when there is a common address, whatever the upper ends. */
  ghost predicate WordsAlwaysFind(low1: nat, low2: nat, stride1: nat, stride2: nat)
    requires stride1 > 0 && stride2 > 0 && LcmWord(stride1, stride2) > 0 && LcmWord(stride2, stride1) > 0
  {
    forall high1: nat, high2: nat ::
      && low1 <= high1 && low2 <= high2 && low1 <= high2 && low2 <= high1 && RoomAbove(high1, high2, stride1, stride2) ==>
      (IntersectStridesWord(low1, low2, high1, high2, stride1, stride2).count > 0
       <==> IntersectStrides(low1, low2, high1, high2, stride1, stride2).count > 0)
  }

  /**
   For given lower ends and strides, dynamic_gcd is right in machine words for all upper ends if and only if the
   offset is reliable: both in its answer and in the clashes it denotes.
   */
  lemma IntersectReliableExact(low1: nat, low2: nat, stride1: nat, stride2: nat)
    requires stride1 > 0 && stride2 > 0 && Fits(stride1, stride2)
    requires low1 + 2 * (stride1 * stride2) < TWO_64 && low2 + 2 * (stride1 * stride2) < TWO_64
    ensures LcmWord(stride1, stride2) > 0 && LcmWord(stride2, stride1) > 0
    ensures WordsAlwaysFind(low1, low2, stride1, stride2) <==> StridesReliable(low1, low2, stride1, stride2)
    ensures WordsAlwaysExact(low1, low2, stride1, stride2) <==> StridesReliable(low1, low2, stride1, stride2)
  {
    hide LcmWord, OffsetReliable, Overlap, OverlapWord, Fits, SameClashes, RoomAbove;
    FitsSwap(stride1, stride2);
    LcmWordFits(stride1, stride2);
    LcmWordFits(stride2, stride1);
    RoomSwap(stride1, stride2);
    if low2 < low1 {
      ReliableExact(low2, low1, stride2, stride1);
    } else {
      ReliableExact(low1, low2, stride1, stride2);
    }
  }

  lemma RoomSwap(stride1: nat, stride2: nat)
    ensures stride1 * stride2 == stride2 * stride1
    ensures forall high1: nat, high2: nat :: RoomAbove(high1, high2, stride1, stride2) <==> RoomAbove(high2, high1, stride2, stride1)
  {
  }

  // ---------- upper ends that are elements of the progressions ----------

  /** Whatever the numbers of elements of two progressions that meet, the machine answers right. */
  ghost predicate RunsAlwaysFind(low1: nat, low2: nat, stride1: nat, stride2: nat)
    requires stride1 > 0 && stride2 > 0 && LcmWord(stride1, stride2) > 0
  {
    forall n1: nat, n2: nat :: RunRight(low1, low2, stride1, stride2, low1 + n1 * stride1, low2 + n2 * stride2)
  }

  predicate RunRight(low1: nat, low2: nat, stride1: nat, stride2: nat, high1: int, high2: int)
    requires stride1 > 0 && stride2 > 0 && LcmWord(stride1, stride2) > 0
  {
    low2 <= high1 && low2 <= high2 && RoomAbove(high1, high2, stride1, stride2) ==>
      (OverlapWord(low1, low2, high1, high2, stride1, stride2).count > 0
       <==> Overlap(low1, low2, high1, high2, stride1, stride2).count > 0)
  }

  /**
   Wrapping moves the offset back by less than both strides, and not below the lower end: no element of either
   progression can end a range between the two offsets.
   */
  predicate ShortByLess(low1: nat, low2: nat, stride1: nat, stride2: nat)
    requires stride1 > 0 && stride2 > 0 && low1 <= low2
  {
    var delta := Delta(low2 - low1, stride1);
    var fallback := Fallback(stride1, stride2, delta);
    0 < fallback <= Offset(stride1, stride2, delta) && fallback < stride1 && fallback < stride2
  }

  predicate EndsReliable(low1: nat, low2: nat, stride1: nat, stride2: nat)
    requires stride1 > 0 && stride2 > 0 && low1 <= low2
  {
    OffsetReliable(low1, low2, stride1, stride2) || ShortByLess(low1, low2, stride1, stride2)
  }

  lemma ShortByLessMeans(low1: nat, low2: nat, stride1: nat, stride2: nat)
    requires stride1 > 0 && stride2 > 0 && low1 <= low2 && Fits(stride1, stride2)
    requires Delta(low2 - low1, stride1) % Gcd(stride1, stride2) == 0
    ensures LcmWord(stride1, stride2) > 0
    ensures var delta := Delta(low2 - low1, stride1);
            var offset, offsetWord := Offset(stride1, stride2, delta), OffsetWord(stride1, stride2, delta);
            ShortByLess(low1, low2, stride1, stride2) <==> offsetWord < offset < offsetWord + stride1 && offset < offsetWord + stride2
  {
    hide Gcd, Lcm, LcmWord, Offset, OffsetWord, WrapHarmless, Delta, Fits, Divides;
    LcmFactors(stride1, stride2);
    var delta := Delta(low2 - low1, stride1);
    assert Divides(Gcd(stride1, stride2), delta) by { DividesMeans(Gcd(stride1, stride2), delta); }
    OffsetFallsBack(stride1, stride2, delta);
    FallbackBelow(stride1, stride2, delta);
  }

  lemma FallbackBelow(stride1: nat, stride2: nat, delta: nat)
    requires stride1 > 0 && stride2 > 0
    ensures Fallback(stride1, stride2, delta) < Lcm(stride1, stride2)
  {
    hide WrapShift, CarryShift, SignedProduct, Gcd, Lcm, WrapHarmless;
    LcmFactors(stride1, stride2);
  }

  /** The first common point lies on both progressions. */
  lemma OffsetOnBoth(low1: nat, low2: nat, stride1: nat, stride2: nat)
    requires stride1 > 0 && stride2 > 0 && low1 <= low2
    requires Delta(low2 - low1, stride1) % Gcd(stride1, stride2) == 0
    ensures var offset := Offset(stride1, stride2, Delta(low2 - low1, stride1));
            0 <= offset < Lcm(stride1, stride2) && Divides(stride2, offset) && Divides(stride1, low2 + offset - low1)
  {
    hide Gcd, Lcm, Offset, Divides;
    LcmFactors(stride1, stride2);
    var delta := Delta(low2 - low1, stride1);
    assert Divides(Gcd(stride1, stride2), delta) by { DividesMeans(Gcd(stride1, stride2), delta); }
    OffsetSolves(stride1, stride2, delta);
    DeltaMeets(low2 - low1, stride1, Offset(stride1, stride2, delta));
  }

  /** An element before another one comes at least a stride earlier. */
  lemma StrideApart(stride: nat, a: int, b: int)
    requires stride > 0 && Divides(stride, a) && Divides(stride, b) && a < b
    ensures a + stride <= b
  {
    DividesDifference(stride, b, a);
    var k := (b - a) / stride;
    if k <= 0 { MulSign(stride, k); } else { MulPos(stride, k); }
  }

  lemma ShortByLessRight(low1: nat, low2: nat, stride1: nat, stride2: nat, n1: nat, n2: nat)
    requires stride1 > 0 && stride2 > 0 && low1 <= low2 && Fits(stride1, stride2) && LcmWord(stride1, stride2) > 0
    requires EndsReliable(low1, low2, stride1, stride2)
    ensures RunRight(low1, low2, stride1, stride2, low1 + n1 * stride1, low2 + n2 * stride2)
  {
    hide Gcd, Lcm, LcmWord, Offset, OffsetWord, WrapHarmless, Delta, Overlap, OverlapWord, Divides, Fits, ShortByLess;
    var high1, high2 := low1 + n1 * stride1, low2 + n2 * stride2;
    if low2 <= high1 && low2 <= high2 && RoomAbove(high1, high2, stride1, stride2) {
      OverlapCountExact(low1, low2, high1, high2, stride1, stride2);
      if OffsetReliable(low1, low2, stride1, stride2) {
        ReliableEnough(low1, low2, high1, high2, stride1, stride2);
      } else {
        OverlapParts(low1, low2, high1, high2, stride1, stride2);
        OffsetOnBoth(low1, low2, stride1, stride2);
        ShortByLessMeans(low1, low2, stride1, stride2);
        var offset := Offset(stride1, stride2, Delta(low2 - low1, stride1));
        MultipleDivides(stride1, n1);
        MultipleDivides(stride2, n2);
        if high1 < low2 + offset { StrideApart(stride1, high1 - low1, low2 + offset - low1); }
        if high2 < low2 + offset { StrideApart(stride2, high2 - low2, offset); }
      }
    }
  }

  /** The machine answers wrong when the common range ends between the two offsets. */
  lemma SeparatedWrong(low1: nat, low2: nat, stride1: nat, stride2: nat, high1: nat, high2: nat)
    requires stride1 > 0 && stride2 > 0 && low1 <= low2 && Fits(stride1, stride2) && LcmWord(stride1, stride2) > 0
    requires low2 <= high1 && low2 <= high2 && RoomAbove(high1, high2, stride1, stride2)
    requires var delta := Delta(low2 - low1, stride1);
             && delta % Gcd(stride1, stride2) == 0
             && (Offset(stride1, stride2, delta) < Room(low2, high1, high2)
                 <==> OffsetWord(stride1, stride2, delta) >= Room(low2, high1, high2))
    ensures !RunRight(low1, low2, stride1, stride2, high1, high2)
  {
    hide Gcd, Lcm, LcmWord, Offset, OffsetWord, Delta, Overlap, OverlapWord, Fits;
    OverlapParts(low1, low2, high1, high2, stride1, stride2);
    OverlapCountExact(low1, low2, high1, high2, stride1, stride2);
  }

  /** The offsets of an unreliable pair: different, and the exact one not ahead by less than both strides. */
  lemma UnreliableOffsets(low1: nat, low2: nat, stride1: nat, stride2: nat)
    requires stride1 > 0 && stride2 > 0 && low1 <= low2 && Fits(stride1, stride2)
    requires LcmWord(stride1, stride2) > 0 && !EndsReliable(low1, low2, stride1, stride2)
    ensures var delta := Delta(low2 - low1, stride1);
            var offset, offsetWord := Offset(stride1, stride2, delta), OffsetWord(stride1, stride2, delta);
            && delta % Gcd(stride1, stride2) == 0
            && Divides(stride2, offset) && Divides(stride1, low2 + offset - low1) && 0 <= offset < stride1 * stride2
            && (offset < offsetWord || offsetWord + stride1 <= offset || offsetWord + stride2 <= offset)
  {
    hide Gcd, Lcm, LcmWord, Offset, OffsetWord, WrapHarmless, Delta, Fits, Divides, ShortByLess;
    LcmFactors(stride1, stride2);
    OffsetOnBoth(low1, low2, stride1, stride2);
    ShortByLessMeans(low1, low2, stride1, stride2);
    var delta := Delta(low2 - low1, stride1);
    assert Divides(Gcd(stride1, stride2), delta) by { DividesMeans(Gcd(stride1, stride2), delta); }
    OffsetWordExact(stride1, stride2, delta);
  }

  /** Numbers of elements for which an unreliable answer is wrong. */
  lemma UnreliableRuns(low1: nat, low2: nat, stride1: nat, stride2: nat) returns (n1: nat, n2: nat)
    requires stride1 > 0 && stride2 > 0 && low1 <= low2 && Fits(stride1, stride2) && low2 + 2 * (stride1 * stride2) < TWO_64
    requires LcmWord(stride1, stride2) > 0 && !EndsReliable(low1, low2, stride1, stride2)
    ensures low2 <= low1 + n1 * stride1 && RoomAbove(low1 + n1 * stride1, low2 + n2 * stride2, stride1, stride2)
    ensures !RunRight(low1, low2, stride1, stride2, low1 + n1 * stride1, low2 + n2 * stride2)
  {
    hide LcmWord, Offset, OffsetWord, Delta, Fits, EndsReliable, RunRight, Divides, Gcd;
    UnreliableOffsets(low1, low2, stride1, stride2);
    var delta := Delta(low2 - low1, stride1);
    var offset, offsetWord := Offset(stride1, stride2, delta), OffsetWord(stride1, stride2, delta);
    n1, n2 := ElementAt(low2 + offset - low1, stride1), ElementAt(offset, stride2);
    if offsetWord + stride2 <= offset {
      n2 := n2 - 1;
      OneLess(n2, stride2);
    } else if offsetWord + stride1 <= offset {
      n1 := n1 - 1;
      OneLess(n1, stride1);
    }
    SeparatedWrong(low1, low2, stride1, stride2, low1 + n1 * stride1, low2 + n2 * stride2);
  }

  lemma OneLess(n: int, stride: int)
    ensures (n + 1) * stride == n * stride + stride
  {
  }

  function ElementAt(d: nat, stride: nat): (n: nat)
    requires stride > 0 && Divides(stride, d)
    ensures n * stride == d
    ensures d >= stride ==> n > 0
  {
    var n := d / stride;
    assert d == stride * n;
    assert n >= 0 by { if n < 0 { MulNeg(stride, n); } }
    n
  }

  /** With upper ends on the progressions, the machine answers right for all numbers of elements if and only if the ends are reliable. */
  lemma RunsReliableExact(low1: nat, low2: nat, stride1: nat, stride2: nat)
    requires stride1 > 0 && stride2 > 0 && low1 <= low2 && Fits(stride1, stride2) && low2 + 2 * (stride1 * stride2) < TWO_64
    ensures LcmWord(stride1, stride2) > 0
    ensures RunsAlwaysFind(low1, low2, stride1, stride2) <==> EndsReliable(low1, low2, stride1, stride2)
  {
    hide LcmWord, Fits, RunRight, EndsReliable;
    LcmWordFits(stride1, stride2);
    if EndsReliable(low1, low2, stride1, stride2) {
      forall n1: nat, n2: nat
        ensures RunRight(low1, low2, stride1, stride2, low1 + n1 * stride1, low2 + n2 * stride2)
      {
        ShortByLessRight(low1, low2, stride1, stride2, n1, n2);
      }
    } else {
      var n1, n2 := UnreliableRuns(low1, low2, stride1, stride2);
    }
  }

  /** When one stride divides the other (powers of two, say) the machine result is exact. */
  lemma DivisorStridesReliable(low1: nat, low2: nat, stride1: nat, stride2: nat)
    requires stride1 > 0 && stride2 > 0 && low1 <= low2 && Fits(stride1, stride2)
    requires Divides(stride1, stride2) || Divides(stride2, stride1)
    ensures OffsetReliable(low1, low2, stride1, stride2)
  {
    hide Gcd, Bezout, Divides;
    LcmFactors(stride1, stride2);
    var delta, g := Delta(low2 - low1, stride1), Gcd(stride1, stride2);
    if Divides(stride2, stride1) {
      GcdOfMultiple(stride1, stride2);
      BezoutOfDivisor(stride1, stride2);
      MulMonotone(stride2, stride1, delta);
      SmallProductHarmless(stride1, stride2, delta, SignedProduct(stride1, stride2, delta));
    } else {
      GcdOfDivisor(stride1, stride2);
      assert delta % g == 0 ==> delta == 0 by { DivUnique(delta, g, 0, delta); }
      SmallProductHarmless(stride1, stride2, 0, 0);
    }
  }

  lemma GcdOfMultiple(x: nat, y: nat)
    requires y > 0 && Divides(y, x)
    ensures Gcd(x, y) == y
  {
  }

  lemma GcdOfDivisor(x: nat, y: nat)
    requires x > 0 && y > 0 && Divides(x, y) && !Divides(y, x)
    ensures Gcd(x, y) == x
  {
    if x > y {
      DivUnique(y, x, 0, y);
    } else {
      assert x < y by { if x == y { MultipleDivides(x, 1); } }
      DivUnique(x, y, 0, x);
      assert Gcd(x, y) == Gcd(y, x) == Gcd(x, 0);
    }
  }

  /** A product of at most the product of the strides, and a multiple of the gcd, does no harm. */
  lemma SmallProductHarmless(stride1: nat, stride2: nat, delta: nat, product: int)
    requires stride1 > 0 && stride2 > 0 && Fits(stride1, stride2)
    requires product == SignedProduct(stride1, stride2, delta)
    requires product == 0 || (0 <= product == stride2 * delta && delta < stride1 && Gcd(stride1, stride2) == stride2)
    ensures WrapHarmless(stride1, stride2, delta)
  {
    hide Gcd, Lcm, SignedProduct, WrapShift, CarryShift;
    LcmFactors(stride1, stride2);
    LcmBelowWord(stride1, stride2);
    var g, m := Gcd(stride1, stride2), Lcm(stride1, stride2);
    MultipleDivides(m, 0);
    if product == 0 {
      DivUnique(0, g, 0, 0);
    } else {
      MulMonotone(stride2, stride1, delta);
      MultipleDivides(stride2, delta);
      MultipleDivides(stride2, stride1);
    }
    NoShift(product, g, m);
  }

  lemma NoShift(product: int, g: int, m: int)
    requires 0 <= product < TWO_64 && g > 0 && product / g + m < TWO_64
    ensures WrapShift(product, g) == CarryShift(product, g, m) == 0
  {
    DivUnique(product, TWO_64, 0, product);
    DivUnique(0, g, 0, 0);
  }

  lemma GcdOf12And20()
    ensures Gcd(12, 20) == Gcd(20, 12) == 4
    ensures Lcm(12, 20) == LcmWord(12, 20) == LcmWord(20, 12) == 60
  {
    assert Gcd(12, 8) == Gcd(8, 4) == Gcd(4, 0) == 4;
  }

  lemma BezoutOf12And20()
    ensures Bezout(12, 20) == (2, -1)
  {
    assert BezoutLoop(8, 4, -1, 2, 1, -1) == BezoutLoop(4, 0, 2, -5, -1, 3) == (2, -1);
    assert Bezout(12, 20) == BezoutLoop(20, 12, 0, 1, 1, 0) == BezoutLoop(12, 8, 1, -1, 0, 1);
  }

  /** The exact offset is 20; the wrapped one is 24, since 2^62 leaves 4 modulo 60. */
  lemma OffsetsOf12And20()
    ensures Lcm(12, 20) > 0 && LcmWord(12, 20) > 0
    ensures Offset(12, 20, 8) == 20 && OffsetWord(12, 20, 8) == 24
  {
    hide Gcd, Lcm, LcmWord, Bezout;
    GcdOf12And20();
    BezoutOf12And20();
    assert Wrap(-1) == TWO_64 - 1;
    assert Wrap(20 * (TWO_64 - 1)) == TWO_64 - 20;
    assert Wrap((TWO_64 - 20) * 8) == TWO_64 - 160;
  }

  /**
   A clash the machine misses: accesses at 0, 12, 24 and at 4, 24 meet at 24, but the wrapped
   coefficient -1 of stride 20 moves the reported first clash beyond the common range.
   */
  lemma MissedClash()
    ensures LcmWord(12, 20) > 0 && LcmWord(20, 12) > 0
    ensures IntersectStrides(0, 4, 24, 24, 12, 20) == AliasT(24, 60, 1)
    ensures IntersectStridesWord(0, 4, 24, 24, 12, 20) == AliasT(28, 60, 0)
  {
    hide Gcd, Lcm, LcmWord, Bezout, Offset, OffsetWord;
    GcdOf12And20();
    OffsetsOf12And20();
    assert Delta(4, 12) == 8;
  }
}
