/** Divisibility, greatest common divisors and least common multiples over the integers. */
module Divisibility {

  predicate Divides(d: int, n: int)
    requires d > 0
  {
    n % d == 0
  }

  lemma MulPos(a: int, b: int)
    requires a > 0 && b > 0
    ensures a * b >= a && a * b >= b
  {
  }

  lemma MulNeg(a: int, b: int)
    requires a > 0 && b < 0
    ensures a * b <= -a
  {
    MulPos(a, -b);
    assert a * b == -(a * -b);
  }

  lemma MulMonotone(m: int, a: int, b: int)
    requires m > 0 && a >= b
    ensures m * a >= m * b
  {
    assert m * a - m * b == m * (a - b);
  }

  lemma DivUnique(n: int, d: int, q: int, r: int)
    requires d > 0 && n == d * q + r && 0 <= r < d
    ensures n / d == q && n % d == r
  {
    var e := n / d - q;
    assert d * e == r - n % d by {
      assert d * (n / d - q) == d * (n / d) - d * q;
    }
    if e > 0 {
      MulPos(d, e);
    } else if e < 0 {
      MulNeg(d, e);
    }
  }

  lemma MultipleDivides(d: int, k: int)
    requires d > 0
    ensures Divides(d, d * k) && (d * k) / d == k
  {
    DivUnique(d * k, d, k, 0);
  }

  lemma ExactDivision(d: int, n: int)
    requires d > 0 && Divides(d, n)
    ensures n == d * (n / d)
  {
  }

  lemma DividesTimes(d: int, n: int, k: int)
    requires d > 0 && Divides(d, n)
    ensures Divides(d, n * k)
  {
    var q := n / d;
    assert n * k == d * (q * k) by {
      assert n == d * q;
      assert (d * q) * k == d * (q * k);
    }
    MultipleDivides(d, q * k);
  }

  lemma DividesSum(d: int, m: int, n: int)
    requires d > 0 && Divides(d, m)
    ensures Divides(d, n) <==> Divides(d, m + n)
  {
    var q, k, r := m / d, n / d, n % d;
    assert m + n == d * (q + k) + r by {
      assert d * (q + k) == d * q + d * k;
    }
    DivUnique(m + n, d, q + k, r);
  }

  lemma DividesDifference(d: int, m: int, n: int)
    requires d > 0 && Divides(d, m) && Divides(d, n)
    ensures Divides(d, m - n)
  {
    DividesSum(d, n, m - n);
  }

  lemma DividesTransitive(a: int, b: int, n: int)
    requires a > 0 && b > 0 && Divides(a, b) && Divides(b, n)
    ensures Divides(a, n)
  {
    DividesTimes(a, b, n / b);
    assert b * (n / b) == n;
  }

  /** The value Euclid's loop leaves in `x`. */
  function Gcd(x: nat, y: nat): (g: nat)
    ensures x > 0 || y > 0 ==> g > 0
    decreases y
  {
    if y == 0 then x else Gcd(y, x % y)
  }

  /** It is a common divisor, and every common divisor divides it. */
  lemma {:induction false} GcdDivides(x: nat, y: nat)
    requires x > 0 || y > 0
    ensures Divides(Gcd(x, y), x) && Divides(Gcd(x, y), y)
    decreases y
  {
    var g := Gcd(x, y);
    if y == 0 {
      MultipleDivides(x, 1);
      MultipleDivides(x, 0);
    } else {
      GcdDivides(y, x % y);
      DividesTimes(g, y, x / y);
      assert x == y * (x / y) + x % y;
      DividesSum(g, y * (x / y), x % y);
    }
  }

  lemma {:induction false} GcdGreatest(x: nat, y: nat, d: int)
    requires (x > 0 || y > 0) && d > 0 && Divides(d, x) && Divides(d, y)
    ensures Divides(d, Gcd(x, y))
    decreases y
  {
    if y != 0 {
      DividesTimes(d, y, x / y);
      assert x == y * (x / y) + x % y;
      DividesSum(d, y * (x / y), x % y);
      GcdGreatest(y, x % y, d);
    }
  }

  function Lcm(x: nat, y: nat): nat
    requires x > 0 || y > 0
  {
    (x * y) / Gcd(x, y)
  }

  lemma LcmFactors(x: nat, y: nat)
    requires x > 0 && y > 0
    ensures var g := Gcd(x, y); g > 0 && Lcm(x, y) == x * (y / g) == y * (x / g)
    ensures Lcm(x, y) > 0 && Gcd(x, y) * Lcm(x, y) == x * y
    ensures x <= Lcm(x, y) && y <= Lcm(x, y) <= x * y
  {
    var g := Gcd(x, y);
    GcdDivides(x, y);
    var p, q := x / g, y / g;
    assert x == g * p && y == g * q;
    assert p > 0 && q > 0 by {
      if p <= 0 { MulSign(g, p); }
      if q <= 0 { MulSign(g, q); }
    }
    assert x * y == g * (x * q) by {
      assert x * (g * q) == g * (x * q);
    }
    assert x * y == g * (y * p) by {
      assert (g * p) * y == g * (y * p);
    }
    MultipleDivides(g, x * q);
    MultipleDivides(g, y * p);
    MulPos(x, q);
    MulPos(y, p);
    MulPos(g, x * q);
  }

  lemma MulSign(a: int, b: int)
    requires a > 0 && b <= 0
    ensures a * b <= 0
  {
  }

  lemma LcmMultiple(x: nat, y: nat)
    requires x > 0 && y > 0
    ensures Lcm(x, y) > 0 && Divides(x, Lcm(x, y)) && Divides(y, Lcm(x, y))
  {
    LcmFactors(x, y);
    MultipleDivides(x, y / Gcd(x, y));
    MultipleDivides(y, x / Gcd(x, y));
  }

  lemma BezoutMultiple(x: int, y: int, s: int, t: int, p: int, q: int, g: int, m: int, n: int)
    requires g > 0 && x * s + y * t == g && g * m == x * y && x * p == n && y * q == n
    ensures n == m * (s * q + t * p)
  {
    var u, v := s * q, t * p;
    assert (x * s) * n == (x * y) * u by { Interchange(x, s, y, q); }
    assert (y * t) * n == (x * y) * v by { Interchange(y, t, x, p); }
    assert g * n == (x * s) * n + (y * t) * n by { Distribute(n, x * s, y * t); }
    assert g * n == (g * m) * (u + v) by { Distribute(x * y, u, v); }
    Associate(g, m, u + v);
    MulCancel(g, n, m * (u + v));
  }

  /** Given Bezout coefficients, the common multiples are the multiples of the lcm. */
  lemma LcmLeast(x: nat, y: nat, s: int, t: int, n: int)
    requires x > 0 && y > 0 && x * s + y * t == Gcd(x, y)
    requires Divides(x, n) && Divides(y, n)
    ensures Lcm(x, y) > 0 && Divides(Lcm(x, y), n)
  {
    hide Gcd, Lcm;
    LcmFactors(x, y);
    var g, m, p, q := Gcd(x, y), Lcm(x, y), n / x, n / y;
    BezoutMultiple(x, y, s, t, p, q, g, m, n);
    MultipleDivides(m, s * q + t * p);
  }

  lemma Interchange(a: int, b: int, c: int, d: int)
    ensures (a * b) * (c * d) == (a * c) * (b * d)
  {
    assert (a * b) * (c * d) == a * (b * (c * d)) == a * (c * (b * d)) == (a * c) * (b * d);
  }

  lemma Distribute(a: int, b: int, c: int)
    ensures a * b + a * c == a * (b + c)
  {
  }

  lemma Associate(a: int, b: int, c: int)
    ensures (a * b) * c == a * (b * c)
  {
  }

  lemma MulCancel(a: int, b: int, c: int)
    requires a > 0 && a * b == a * c
    ensures b == c
  {
    assert a * (b - c) == 0;
    if b > c {
      MulPos(a, b - c);
    } else if c > b {
      MulNeg(a, b - c);
    }
  }
}
