/** Integer arithmetic shared by the decimal-int modules: powers of ten, C's truncating
    division, rounding to a multiple, and clamping. */
module Arithmetic {

  function Abs(x: int): nat {
    if x < 0 then -x else x
  }

  function Sign(x: int): int {
    if x < 0 then -1 else if x > 0 then 1 else 0
  }

  function Min(x: int, y: int): int {
    if x < y then x else y
  }

  function Pow10(n: nat): (p: int)
    ensures p > 0
  {
    if n == 0 then 1 else 10 * Pow10(n - 1)
  }

  lemma {:induction false} Pow10Add(a: nat, b: nat)
    ensures Pow10(a + b) == Pow10(a) * Pow10(b)
  {
    if a == 0 {
    } else {
      Pow10Add(a - 1, b);
      assert a + b - 1 == (a - 1) + b;
      MulAssociative(10, Pow10(a - 1), Pow10(b));
    }
  }

  lemma {:induction false} Pow10Monotone(a: nat, b: nat)
    requires a <= b
    ensures Pow10(a) <= Pow10(b)
  {
    Pow10Add(a, b - a);
    MulMonotone(Pow10(a), 1, Pow10(b - a));
  }

  // ------------------------------------------------------------------ products

  lemma MulMonotone(k: int, x: int, y: int)
    requires 0 <= k && x <= y
    ensures k * x <= k * y
  {
  }

  lemma MulStrictlyMonotone(k: int, x: int, y: int)
    requires 0 < k
    ensures x < y <==> k * x < k * y
  {
    if x < y {
      MulMonotone(k, x + 1, y);
      assert k * (x + 1) == k * x + k;
    } else {
      MulMonotone(k, y, x);
    }
  }

  lemma MulAssociative(a: int, b: int, c: int)
    ensures a * (b * c) == (a * b) * c
  {
  }

  lemma MulDistributes(a: int, b: int, c: int)
    ensures a * (b - c) == a * b - a * c
    ensures a * (b + c) == a * b + a * c
  {
  }

  // ------------------------------------------------------------------ quotients

  /** x == q * d + r determines q and r. */
  lemma QuotientUnique(x: int, d: int, q: int, r: int)
    requires 0 < d && 0 <= r < d
    requires x == d * q + r
    ensures x / d == q && x % d == r
  {
    var q', r' := x / d, x % d;
    assert x == d * q' + r';
    assert d * (q - q') == r' - r;
    if q > q' {
      MulMonotone(d, 1, q - q');
    } else if q < q' {
      MulMonotone(d, q - q', -1);
    }
  }

  lemma ModCongruent(v: int, r: int, k: int)
    requires r > 0
    ensures (v + r * k) % r == v % r
  {
    var q := v / r;
    assert v == r * q + v % r;
    assert r * (q + k) == r * q + r * k;
    QuotientUnique(v + r * k, r, q + k, v % r);
  }

  /** Dividing by a and then by b is dividing by a * b; the two remainders combine. */
  lemma DivDiv(m: nat, a: nat, b: nat)
    requires 0 < a && 0 < b
    ensures a * b > 0
    ensures m / (a * b) == (m / a) / b
    ensures m % (a * b) == a * ((m / a) % b) + m % a
  {
    var q, r := m / a, m % a;
    var q2, r2 := q / b, q % b;
    assert m == a * q + r && q == b * q2 + r2;
    assert a * (b * q2 + r2) == (a * b) * q2 + a * r2;
    MulMonotone(a, r2, b - 1);
    assert a * (b - 1) == a * b - a;
    MulMonotone(a, 0, r2);
    QuotientUnique(m, a * b, q2, a * r2 + r);
  }

  /** C's integer division and remainder, which truncate toward zero. */
  function CDiv(x: int, d: int): int
    requires d > 0
  {
    if x >= 0 then x / d else -((-x) / d)
  }

  function CMod(x: int, d: int): int
    requires d > 0
  {
    x - d * CDiv(x, d)
  }

  /** The quotient is cut off toward zero, and the remainder has the sign of the dividend. */
  lemma CDivTruncates(x: int, d: int)
    requires d > 0
    ensures x >= 0 ==> 0 <= d * CDiv(x, d) <= x < d * CDiv(x, d) + d && 0 <= CMod(x, d) < d
    ensures x <= 0 ==> 0 >= d * CDiv(x, d) >= x > d * CDiv(x, d) - d && -d < CMod(x, d) <= 0
    ensures x == d * CDiv(x, d) + CMod(x, d)
  {
    assert x == d * (x / d) + x % d && -x == d * ((-x) / d) + (-x) % d;
    assert d * -((-x) / d) == -(d * ((-x) / d));
    CModSign(x, d);
    DivNonNegative(Abs(x), d);
    MulMonotone(d, 0, Abs(x) / d);
  }

  lemma CModSign(x: int, d: int)
    requires d > 0
    ensures x >= 0 ==> CMod(x, d) == x % d
    ensures x <= 0 ==> CMod(x, d) == -((-x) % d) <= 0
  {
    assert x == d * (x / d) + x % d && -x == d * ((-x) / d) + (-x) % d;
    assert d * -((-x) / d) == -(d * ((-x) / d));
    if x == 0 {
      QuotientUnique(0, d, 0, 0);
    }
  }

  /** A quotient by at least k is at most a k-th. */
  lemma DivShrinks(m: nat, p: int, k: nat)
    requires 0 < k <= p
    ensures k * (m / p) <= m
  {
    DivNonNegative(m, p);
    assert m == p * (m / p) + m % p;
    MulMonotone(m / p, k, p);
  }

  // ------------------------------------------------------------------ rounding

  function Floor(x: int, d: int): int
    requires d > 0
  {
    x / d
  }

  function Ceil(x: int, d: int): int
    requires d > 0
  {
    -((-x) / d)
  }

  /** Nearest multiple, halves away from zero. */
  function RoundHalfAway(x: int, d: int): int
    requires d > 0
  {
    var q := Abs(x) / d + (if 2 * (Abs(x) % d) >= d then 1 else 0);
    if x < 0 then -q else q
  }

  /** Floor is the largest integer whose multiple of d does not exceed x. */
  lemma FloorBound(c: int, x: int, d: int)
    requires d > 0
    ensures c * d <= x <==> c <= Floor(x, d)
  {
    var q := x / d;
    assert x == d * q + x % d;
    if c <= q {
      MulMonotone(d, c, q);
    } else {
      MulMonotone(d, q + 1, c);
      assert d * (q + 1) == d * q + d;
    }
  }

  /** Ceil is the smallest integer whose multiple of d reaches x. */
  lemma CeilBound(c: int, x: int, d: int)
    requires d > 0
    ensures c * d >= x <==> c >= Ceil(x, d)
  {
    FloorBound(-c, -x, d);
    assert (-c) * d == -(c * d);
  }

  /** x is a multiple of d exactly when some integer multiple hits it, and then division is exact. */
  lemma MultipleExact(c: int, x: int, d: int)
    requires d > 0
    ensures x % d == 0 ==> (c * d == x <==> c == x / d)
    ensures c * d == x ==> x % d == 0
    ensures x % d == 0 ==> CDiv(x, d) == x / d == Ceil(x, d)
  {
    var q := x / d;
    assert x == d * q + x % d;
    if c * d == x {
      QuotientUnique(x, d, c, 0);
    }
    if x % d == 0 {
      QuotientUnique(-x, d, -q, 0);
    }
  }

  /** How the truncating quotient is adjusted to floor or ceiling. */
  lemma TruncToFloorCeil(x: int, d: int)
    requires d > 0
    ensures (x % d != 0) <==> (Abs(x) % d != 0)
    ensures Ceil(x, d) == CDiv(x, d) + (if x >= 0 && x % d != 0 then 1 else 0)
    ensures Floor(x, d) == CDiv(x, d) - (if x < 0 && x % d != 0 then 1 else 0)
  {
    NegQuotient(x, d);
    NegQuotient(-x, d);
  }

  lemma NegQuotient(x: int, d: int)
    requires d > 0
    ensures x % d == 0 ==> (-x) / d == -(x / d) && (-x) % d == 0
    ensures x % d != 0 ==> (-x) / d == -(x / d) - 1 && (-x) % d == d - x % d
  {
    var q, r := x / d, x % d;
    assert x == d * q + r;
    if r == 0 {
      QuotientUnique(-x, d, -q, 0);
    } else {
      assert d * (-q - 1) == -(d * q) - d;
      QuotientUnique(-x, d, -q - 1, d - r);
    }
  }

  /** The defining property of rounding: the result is within half a step of x, and the half
      step itself rounds outward. */
  lemma RoundHalfAwayNearest(x: int, d: int)
    requires d > 0
    ensures var r := RoundHalfAway(x, d);
            if x >= 0 then 2 * x - d < 2 * (r * d) <= 2 * x + d
            else 2 * x - d <= 2 * (r * d) < 2 * x + d
  {
    var m := Abs(x);
    assert m == d * (m / d) + m % d;
    var q := m / d + (if 2 * (m % d) >= d then 1 else 0);
    assert (m / d + 1) * d == d * (m / d) + d;
    assert (-q) * d == -(q * d);
  }

  lemma RoundHalfAwayMonotone(x: int, y: int, d: int)
    requires d > 0 && x <= y
    ensures RoundHalfAway(x, d) <= RoundHalfAway(y, d)
  {
    if x < 0 <= y {
      DivNonNegative(Abs(x), d);
      DivNonNegative(y, d);
    } else if x >= 0 {
      RoundMagnitudeMonotone(x, y, d);
    } else {
      RoundMagnitudeMonotone(-y, -x, d);
    }
  }

  lemma DivNonNegative(m: nat, d: int)
    requires d > 0
    ensures m / d >= 0
  {
    if m / d < 0 {
      MulMonotone(d, m / d, -1);
    }
  }

  lemma RoundMagnitudeMonotone(m: nat, n: nat, d: int)
    requires d > 0 && m <= n
    ensures RoundHalfAway(m, d) <= RoundHalfAway(n, d)
  {
    var qm, qn := m / d, n / d;
    assert m == d * qm + m % d && n == d * qn + n % d;
    assert d * (qn + 1) == d * qn + d;
    if qm > qn {
      MulMonotone(d, qn + 1, qm);
    }
  }

  /** Scaling up and rounding back is the identity. */
  lemma RoundHalfAwayInverse(x: int, d: int)
    requires d > 0
    ensures RoundHalfAway(x * d, d) == x
  {
    assert Abs(x * d) == Abs(x) * d by {
      if x < 0 {
        MulMonotone(d, x, 0);
        assert (-x) * d == -(x * d);
      } else {
        MulMonotone(d, 0, x);
      }
    }
    QuotientUnique(Abs(x) * d, d, Abs(x), 0);
    if x < 0 {
      MulStrictlyMonotone(d, x, 0);
      assert x * d < 0;
    } else {
      MulMonotone(d, 0, x);
    }
  }

  // ------------------------------------------------------------------ counting

  /** The n smallest naturals. */
  function Below(n: nat): (r: set<int>)
    ensures forall i :: i in r <==> 0 <= i < n
  {
    if n == 0 then {} else Below(n - 1) + {n - 1}
  }

  lemma {:induction false} SizeBelow(s: set<int>, n: nat)
    requires s <= Below(n)
    ensures |s| <= n
  {
    if n > 0 {
      SizeBelow(s - {n - 1}, n - 1);
    }
  }

  // ------------------------------------------------------------------ clamping

  function Clamp(v: int, lo: int, hi: int): (r: int)
    requires lo <= hi
    ensures lo <= r <= hi
    ensures lo <= v <= hi ==> r == v
  {
    if v <= lo then lo else if v >= hi then hi else v
  }
}
