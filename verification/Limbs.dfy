/** The arithmetic inside ObWideInteger: multiplication and division by a native integer, limb by limb,
    on two's-complement integers of 128 to 512 bits. */
module Limbs {
  import opened Arithmetic
  import opened TwosComplement

  const B: int := 0x1_0000_0000_0000_0000

  /** An item: an unsigned 64-bit word. */
  type Item = x: int | 0 <= x < B

  /** A dw_type, the unsigned 128-bit type the loops calculate in. */
  function Dw(x: int): int {
    x % (B * B)
  }

  // ------------------------------------------------------------------ what the items denote

  /** The unsigned value of items, least significant first. */
  function Unsigned(s: seq<Item>): nat {
    if s == [] then 0 else s[0] + B * Unsigned(s[1..])
  }

  /** Number of values n items can hold. */
  function Size(n: nat): (r: int)
    ensures r > 0
  {
    Range(8 * n)
  }

  /** The signed value of items. */
  function Value(s: seq<Item>): int
    requires s != []
  {
    AsSigned(Unsigned(s), 8 * |s|)
  }

  lemma SizeNext(n: nat)
    ensures Size(0) == 1 && Size(n + 1) == B * Size(n)
  {
    RangeAdd(8, 8 * n);
    assert Range(8) == B;
  }

  lemma {:induction false} UnsignedBound(s: seq<Item>)
    ensures Unsigned(s) < Size(|s|)
  {
    if s == [] {
      SizeNext(0);
    } else {
      UnsignedBound(s[1..]);
      SizeNext(|s| - 1);
      MulMonotone(B, Unsigned(s[1..]) + 1, Size(|s| - 1));
    }
  }

  lemma {:induction false} UnsignedConcat(a: seq<Item>, b: seq<Item>)
    ensures Unsigned(a + b) == Unsigned(a) + Size(|a|) * Unsigned(b)
  {
    if a == [] {
      assert a + b == b;
      SizeNext(0);
    } else {
      UnsignedConcat(a[1..], b);
      assert (a + b)[1..] == a[1..] + b;
      SizeNext(|a| - 1);
      MulAssociative(B, Size(|a| - 1), Unsigned(b));
      MulDistributes(B, Unsigned(a[1..]), Size(|a| - 1) * Unsigned(b));
    }
  }

  /** One item more. */
  lemma UnsignedNext(s: seq<Item>, i: nat)
    requires i < |s|
    ensures Unsigned(s[..i + 1]) == Unsigned(s[..i]) + Size(i) * s[i]
  {
    UnsignedConcat(s[..i], [s[i]]);
    assert s[..i + 1] == s[..i] + [s[i]];
    assert Unsigned([s[i]]) == s[i];
  }

  /** Changing item i changes the value by so many times its weight. */
  lemma UnsignedUpdate(s: seq<Item>, i: nat, x: Item)
    requires i < |s|
    ensures Unsigned(s[i := x]) == Unsigned(s) + Size(i) * (x - s[i])
  {
    var t := s[i := x];
    UnsignedConcat(s[..i], s[i..]);
    UnsignedConcat(t[..i], t[i..]);
    assert s == s[..i] + s[i..] && t == t[..i] + t[i..];
    assert t[..i] == s[..i] && t[i..][1..] == s[i..][1..];
    MulDistributes(Size(i), x + B * Unsigned(s[i..][1..]), s[i] + B * Unsigned(s[i..][1..]));
  }

  /** The items hold v, wrapped to their width. */
  predicate Denotes(s: seq<Item>, v: int) {
    Unsigned(s) == v % Size(|s|)
  }

  lemma DenotesValue(s: seq<Item>, v: int)
    requires s != [] && Denotes(s, v)
    ensures Value(s) == Wrap(v, 8 * |s|)
  {
  }

  lemma ValueDenoted(s: seq<Item>)
    requires s != []
    ensures Denotes(s, Value(s))
    ensures Fits(Value(s), 8 * |s|)
  {
    UnsignedBound(s);
    var r := Size(|s|);
    var u := Unsigned(s);
    QuotientUnique(u, r, 0, u);
    ModCongruent(u, r, -1);
    assert r == 2 * Half(8 * |s|);
  }

  const SIGN_BIT: int := 0x8000_0000_0000_0000

  /** The sign bit of the top item is the sign. */
  predicate IsNegative(s: seq<Item>)
    requires s != []
  {
    s[|s| - 1] >= SIGN_BIT
  }

  lemma HalfSize(n: nat)
    requires n > 0
    ensures Half(8 * n) == SIGN_BIT * Size(n - 1)
  {
    RangeAdd(7, 8 * (n - 1));
    assert Range(7) == 0x100_0000_0000_0000;
  }

  lemma SignOfTop(s: seq<Item>)
    requires s != []
    ensures IsNegative(s) <==> Value(s) < 0
  {
    hide Range, Half;
    var k := |s| - 1;
    UnsignedNext(s, k);
    assert s[..k + 1] == s;
    UnsignedBound(s[..k]);
    UnsignedBound(s);
    HalfSize(|s|);
    if IsNegative(s) {
      MulMonotone(Size(k), SIGN_BIT, s[k]);
    } else {
      MulMonotone(Size(k), s[k], SIGN_BIT - 1);
      MulDistributes(Size(k), SIGN_BIT, 1);
    }
  }

  lemma Negated(v: int, r: int)
    requires r > 0
    ensures (r - v % r) % r == (-v) % r
  {
    assert v == r * (v / r) + v % r;
    ModCongruent(-v, r, v / r + 1);
    assert -v + r * (v / r + 1) == r - v % r;
  }

  // ------------------------------------------------------------------ negation

  /** Adding one to item i, which may wrap to zero and carry. */
  lemma CarryStep(s: seq<Item>, i: nat)
    requires i < |s|
    ensures var x := (s[i] + 1) % B;
            Unsigned(s[i := x]) + (if x == 0 then Size(i + 1) else 0) == Unsigned(s) + Size(i)
  {
    hide Size, Unsigned;
    var x := (s[i] + 1) % B;
    UnsignedUpdate(s, i, x);
    SizeNext(i);
    if s[i] == B - 1 {
      assert x == 0;
      assert Size(i) * (0 - (B - 1)) == Size(i) - B * Size(i);
    } else {
      assert x == s[i] + 1;
      assert Size(i) * (x - s[i]) == Size(i);
    }
  }

  /** A sum that leaves the items by at most one carry. */
  lemma Carried(was: nat, now: nat, r: int, overflow: bool)
    requires 0 <= was < r && now < r
    requires now + (if overflow then r else 0) == was + 1
    ensures now == (was + 1) % r
  {
    QuotientUnique(was + 1, r, if overflow then 1 else 0, now);
  }

  /** add with the integer 1: the carry ripples up until an item does not wrap to zero. */
  method AddOne(res: array<Item>)
    requires res.Length > 0
    modifies res
    ensures Unsigned(res[..]) == (Unsigned(old(res[..])) + 1) % Size(res.Length)
  {
    hide Size, Unsigned;
    ghost var was, before := Unsigned(res[..]), res[..];
    UnsignedBound(res[..]);
    SizeNext(0);
    CarryStep(before, 0);
    res[0] := (res[0] + 1) % B;
    assert res[..] == before[0 := res[0]];
    var overflow := res[0] < 1;
    var i: nat := 1;
    while overflow && i < res.Length
      invariant 1 <= i <= res.Length
      invariant Unsigned(res[..]) + (if overflow then Size(i) else 0) == was + 1
    {
      before := res[..];
      CarryStep(before, i);
      res[i] := (res[i] + 1) % B;
      assert res[..] == before[i := res[i]];
      overflow := res[i] == 0;
      i := i + 1;
    }
    UnsignedBound(res[..]);
    Carried(was, Unsigned(res[..]), Size(res.Length), overflow);
  }

  lemma {:induction false} ComplementValue(s: seq<Item>, t: seq<Item>)
    requires |s| == |t| && forall i :: 0 <= i < |s| ==> t[i] == B - 1 - s[i]
    ensures Unsigned(s) + Unsigned(t) == Size(|s|) - 1
  {
    if s == [] {
      SizeNext(0);
    } else {
      ComplementValue(s[1..], t[1..]);
      SizeNext(|s| - 1);
      MulDistributes(B, Unsigned(s[1..]), Unsigned(t[1..]));
    }
  }

  /** unary_minus: every item complemented, then one added. */
  method UnaryMinus(res: array<Item>, ghost v: int)
    requires res.Length > 0 && Denotes(res[..], v)
    modifies res
    ensures Denotes(res[..], -v)
  {
    hide Size, Unsigned;
    ghost var was := res[..];
    for i := 0 to res.Length
      invariant forall k :: 0 <= k < i ==> res[k] == B - 1 - was[k]
      invariant forall k :: i <= k < res.Length ==> res[k] == was[k]
    {
      res[i] := B - 1 - res[i];
    }
    ComplementValue(was, res[..]);
    AddOne(res);
    Negated(v, Size(res.Length));
  }

  // ------------------------------------------------------------------ multiplication

  /** make_positive: the magnitude, as an unsigned value; the least value has one too. */
  method MakePositive(lhs: seq<Item>, res: array<Item>)
    requires lhs != [] && res.Length == |lhs|
    modifies res
    ensures Unsigned(res[..]) == Abs(Value(lhs))
  {
    Copy(lhs, res);
    SignOfTop(lhs);
    ValueDenoted(lhs);
    if IsNegative(lhs) {
      UnaryMinus(res, Value(lhs));
      MagnitudeFits(Value(lhs), 8 * |lhs|);
    } else {
      UnsignedBound(lhs);
    }
  }

  lemma MagnitudeFits(v: int, n: nat)
    requires n > 0 && Fits(v, n) && v < 0
    ensures (-v) % Range(n) == -v
  {
    QuotientUnique(-v, Range(n), 0, -v);
  }

  /** Step i of the carry loop. The 128-bit accumulator does not overflow, and items and carry together
      hold the product of what has been read. */
  lemma ProductStep(mag: seq<Item>, i: nat, factor: int, carry: int, done: seq<Item>)
    requires i < |mag| && |done| == i && 0 <= factor < B && 0 <= carry < B
    requires Unsigned(done) + carry * Size(i) == Unsigned(mag[..i]) * factor
    ensures var sum := carry + mag[i] * factor;
            && 0 <= sum < B * B && 0 <= sum / B < B
            && Unsigned(done + [sum % B]) + (sum / B) * Size(i + 1) == Unsigned(mag[..i + 1]) * factor
  {
    hide Unsigned, Size;
    var sum := carry + mag[i] * factor;
    ProductFits(mag[i], factor, carry);
    UnsignedNext(mag, i);
    var t := done + [sum % B];
    UnsignedNext(t, i);
    assert t[..i] == done && t[..i + 1] == t;
    SizeNext(i);
    SplitSum(sum, Size(i));
    ProductSum(Unsigned(mag[..i]), Size(i), mag[i], factor, carry);
  }

  lemma ProductFits(x: int, factor: int, carry: int)
    requires 0 <= x < B && 0 <= factor < B && 0 <= carry < B
    ensures var sum := carry + x * factor; 0 <= sum < B * B && 0 <= sum / B < B && 0 <= sum % B < B
  {
    var sum := carry + x * factor;
    MulMonotone(x, 0, factor);
    MulMonotone(x, factor, B - 1);
    assert x * (B - 1) <= (B - 1) * (B - 1);
    assert sum == B * (sum / B) + sum % B;
  }

  /** Low part and carry of a sum, weighted. */
  lemma SplitSum(sum: int, size: int)
    ensures size * (sum % B) + (sum / B) * (B * size) == size * sum
  {
    assert sum == B * (sum / B) + sum % B;
    assert size * (B * (sum / B) + sum % B) == size * (B * (sum / B)) + size * (sum % B);
    assert size * (B * (sum / B)) == (sum / B) * (B * size);
  }

  lemma ProductSum(low: int, size: int, x: int, factor: int, carry: int)
    ensures (low + size * x) * factor == low * factor - carry * size + size * (carry + x * factor)
  {
    assert (low + size * x) * factor == low * factor + (size * x) * factor;
    MulAssociative(size, x, factor);
    MulDistributes(size, carry, x * factor);
  }

  /** multiply by a native integer of at most 64 bits other than the least. */
  method Multiply(lhs: seq<Item>, rhs: int, res: array<Item>)
    requires lhs != [] && res.Length == |lhs| && -SIGN_BIT < rhs < B
    modifies res
    ensures Value(res[..]) == Wrap(Value(lhs) * rhs, 8 * |lhs|)
  {
    hide Unsigned, Size, Value, Range, Half;
    ghost var x := Value(lhs);
    if rhs == 0 {
      SetZero(res);
      ZeroDenoted(res[..]);
    } else if rhs == 1 {
      Copy(lhs, res);
      ValueDenoted(lhs);
    } else {
      MakePositive(lhs, res);
      var rval := if rhs < 0 then -rhs else rhs;
      MultiplyMagnitude(res, rval);
      SignOfTop(lhs);
      MagnitudeProduct(x, rhs);
      if IsNegative(lhs) != (rhs < 0) {
        UnaryMinus(res, Abs(x) * rval);
      }
    }
    assert Denotes(res[..], x * rhs);
    DenotesValue(res[..], x * rhs);
  }

  lemma MagnitudeProduct(x: int, y: int)
    ensures x * y == if (x < 0) != (y < 0) then -(Abs(x) * Abs(y)) else Abs(x) * Abs(y)
  {
    assert (-x) * y == -(x * y) && x * (-y) == -(x * y) && (-x) * (-y) == x * y;
  }

  method SetZero(res: array<Item>)
    modifies res
    ensures forall i :: 0 <= i < res.Length ==> res[i] == 0
  {
    forall i | 0 <= i < res.Length {
      res[i] := 0;
    }
  }

  lemma {:induction false} ZeroDenoted(s: seq<Item>)
    requires forall i :: 0 <= i < |s| ==> s[i] == 0
    ensures Unsigned(s) == 0 && Denotes(s, 0)
  {
    if s != [] {
      ZeroDenoted(s[1..]);
    }
    QuotientUnique(0, Size(|s|), 0, 0);
  }

  /** The carry loop. */
  method MultiplyMagnitude(res: array<Item>, factor: int)
    requires res.Length > 0 && 0 <= factor < B
    modifies res
    ensures Denotes(res[..], old(Unsigned(res[..])) * factor)
  {
    hide Unsigned, Size;
    ghost var mag := res[..];
    var carrier := 0;
    ProductNone(mag, factor);
    for i := 0 to res.Length
      invariant res[i..] == mag[i..] && 0 <= carrier < B
      invariant Unsigned(res[..i]) + carrier * Size(i) == Unsigned(mag[..i]) * factor
    {
      ghost var done := res[..i];
      assert res[i] == mag[i];
      ProductStep(mag, i, factor, carrier, done);
      DwSmall(carrier + res[i] * factor);
      carrier := Dw(carrier + res[i] * factor);
      res[i] := carrier % B;
      carrier := carrier / B;
      assert res[..i + 1] == done + [res[i]];
    }
    assert res[..res.Length] == res[..] && mag[..res.Length] == mag;
    UnsignedBound(res[..]);
    ProductRest(Unsigned(res[..]), carrier, Size(res.Length), Unsigned(mag) * factor);
  }

  lemma ProductNone(mag: seq<Item>, factor: int)
    ensures Unsigned(mag[..0]) == 0 && Unsigned([]) == 0
    ensures Unsigned(mag[..0]) + 0 * Size(0) == Unsigned(mag[..0]) * factor
  {
  }

  lemma DwSmall(x: int)
    requires 0 <= x < B * B
    ensures Dw(x) == x
  {
  }

  lemma ProductRest(u: nat, carry: int, r: int, p: int)
    requires u < r && u + carry * r == p
    ensures u == p % r
  {
    assert carry * r == r * carry;
    QuotientUnique(p, r, carry, u);
  }

  // ------------------------------------------------------------------ division

  /** C's quotient for a divisor of either sign. */
  function Quotient(x: int, d: int): int
    requires d != 0
  {
    if d > 0 then CDiv(x, d) else -CDiv(x, -d)
  }

  /** Step of the division loop on the items from j up: the remainder so far, followed by item j. */
  lemma DivisionStep(num: seq<Item>, j: nat, den: int, rem: int, quo: seq<Item>)
    requires j < |num| && |quo| == |num| - j - 1 && 0 <= rem < den < B
    requires Unsigned(num[j + 1..]) == den * Unsigned(quo) + rem
    ensures var n := rem * B + num[j];
            && 0 <= n < B * B && 0 <= n / den < B && 0 <= n % den < den
            && Unsigned(num[j..]) == den * Unsigned([n / den] + quo) + n % den
  {
    hide Unsigned;
    QuotientFits(rem, num[j], den);
    DivisionSum(num[j], rem, den, Unsigned(quo));
    UnsignedStep(num[j..]);
    assert num[j..][1..] == num[j + 1..];
    var quotient := (rem * B + num[j]) / den;
    UnsignedStep([quotient] + quo);
    assert ([quotient] + quo)[1..] == quo;
  }

  lemma UnsignedStep(s: seq<Item>)
    requires s != []
    ensures Unsigned(s) == s[0] + B * Unsigned(s[1..])
  {
  }

  lemma DivisionSum(item: int, rem: int, den: int, q: int)
    requires den > 0
    ensures var n := rem * B + item;
            item + B * (den * q + rem) == den * (n / den + B * q) + n % den
  {
    var n := rem * B + item;
    assert n == den * (n / den) + n % den;
    MulDistributes(den, n / den, B * q);
    MulDistributes(B, den * q, rem);
    assert B * (den * q) == den * (B * q);
  }

  lemma QuotientFits(rem: int, item: int, den: int)
    requires 0 <= rem < den < B && 0 <= item < B
    ensures var n := rem * B + item; 0 <= n < B * B && 0 <= n / den < B
  {
    var n := rem * B + item;
    assert rem * B <= (den - 1) * B;
    DivNonNegative(n, den);
    assert n == den * (n / den) + n % den;
    if n / den >= B {
      MulMonotone(den, B, n / den);
    }
  }

  /** The division loop, from the top item down. */
  method DivideMagnitude(num: seq<Item>, den: int, quo: array<Item>) returns (rem: int)
    requires quo.Length == |num| && 0 < den < B
    modifies quo
    ensures Unsigned(num) == den * Unsigned(quo[..]) + rem && 0 <= rem < den
  {
    hide Unsigned;
    rem := 0;
    var i: nat := 0;
    DivisionNone(num);
    assert quo[|num|..] == [];
    while i < |num|
      invariant i <= |num| && 0 <= rem < den
      invariant Unsigned(num[|num| - i..]) == den * Unsigned(quo[|num| - i..]) + rem
    {
      var big := |num| - i - 1;
      ghost var done := quo[big + 1..];
      DivisionStep(num, big, den, rem, done);
      DwSmall(rem * B + num[big]);
      rem := Dw(rem * B + num[big]);
      if rem < den {
        SmallQuotient(rem, den);
        quo[big] := 0;
      } else {
        quo[big] := rem / den;
        rem := rem % den;
      }
      assert quo[big..] == [quo[big]] + done;
      i := i + 1;
    }
    assert num[0..] == num && quo[0..] == quo[..];
  }

  lemma DivisionNone(num: seq<Item>)
    ensures Unsigned(num[|num|..]) == 0 && Unsigned([]) == 0
  {
  }

  lemma SmallQuotient(n: int, d: int)
    requires 0 <= n < d
    ensures n / d == 0 && n % d == n
  {
    QuotientUnique(n, d, 0, n);
  }

  lemma SignedQuotient(x: int, d: int)
    requires d != 0
    ensures Quotient(x, d) == if (x < 0) != (d < 0) then -(Abs(x) / Abs(d)) else Abs(x) / Abs(d)
    ensures CMod(x, Abs(d)) == if x < 0 then -(Abs(x) % Abs(d)) else Abs(x) % Abs(d)
  {
    CModSign(x, Abs(d));
    SmallQuotient(0, Abs(d));
  }

  lemma RemainderFits(x: int, d: int, n: nat)
    requires n > 0 && d > 0 && Fits(x, n)
    ensures Fits(CMod(x, d), n)
  {
    hide Half;
    DivNonNegative(Abs(x), d);
    assert Abs(x) == d * (Abs(x) / d) + Abs(x) % d;
    MulMonotone(d, 0, Abs(x) / d);
    CModSign(x, d);
  }

  /** The quotient is representable, so that nothing wraps, but for the least dividend over -1. */
  lemma QuotientWrapsIff(x: int, d: int, n: nat)
    requires n > 0 && d != 0 && Fits(x, n)
    ensures Wrap(Quotient(x, d), n) == Quotient(x, d) <==> !(x == MinOf(n) && d == -1)
  {
    hide Half, Quotient;
    var m := Abs(d);
    SignedQuotient(x, d);
    DivNonNegative(Abs(x), m);
    DivShrinks(Abs(x), m, Min(m, 2));
    if m == 1 {
      QuotientUnique(Abs(x), 1, Abs(x), 0);
    }
  }

  lemma UnsignedDenoted(s: seq<Item>)
    ensures Denotes(s, Unsigned(s))
  {
    UnsignedBound(s);
    QuotientUnique(Unsigned(s), Size(|s|), 0, Unsigned(s));
  }

  method Copy(s: seq<Item>, res: array<Item>)
    requires res.Length == |s|
    modifies res
    ensures res[..] == s
  {
    forall i | 0 <= i < |s| {
      res[i] := s[i];
    }
  }

  /** Zero, and x in the lowest item. */
  method SetSmall(res: array<Item>, x: Item)
    requires res.Length > 0
    modifies res
    ensures Unsigned(res[..]) == x
  {
    SetZero(res);
    res[0] := x;
    ZeroDenoted(res[1..]);
    assert res[..][1..] == res[1..];
  }

  lemma TwoItems(s: seq<Item>)
    requires |s| == 2
    ensures Unsigned(s) == s[0] + B * s[1]
  {
    assert Unsigned(s[1..][1..]) == 0;
    assert s[1..][0] == s[1];
  }

  /** A dw_type as two items. */
  method SetDw(res: array<Item>, x: int)
    requires res.Length == 2 && 0 <= x < B * B
    modifies res
    ensures Unsigned(res[..]) == x
  {
    assert x == B * (x / B) + x % B;
    res[1] := x / B;
    res[0] := x % B;
    TwoItems(res[..]);
  }

  /** The branches for magnitudes: divisor 1, 128 bits, and the loop. */
  method DivideMagnitudes(num: seq<Item>, den: int, quotient: array<Item>, remain: array<Item>)
    requires |num| >= 2 && quotient.Length == remain.Length == |num| && quotient != remain
    requires 0 < den < B
    modifies quotient, remain
    ensures Denotes(quotient[..], Unsigned(num) / den)
    ensures Denotes(remain[..], Unsigned(num) % den)
  {
    hide Unsigned, Size, Denotes;
    ghost var n := Unsigned(num);
    if den == 1 {
      Copy(num, quotient);
      SetZero(remain);
      ZeroDenoted(remain[..]);
      QuotientUnique(n, 1, n, 0);
    } else if |num| == 2 {
      TwoItems(num);
      var x := num[0] + B * num[1];
      DwQuotient(x, den);
      SetDw(quotient, x / den);
      SetDw(remain, x % den);
    } else {
      var rem := DivideMagnitude(num, den, quotient);
      SetSmall(remain, rem);
      QuotientUnique(n, den, Unsigned(quotient[..]), rem);
    }
    UnsignedDenoted(quotient[..]);
    UnsignedDenoted(remain[..]);
  }

  lemma DwQuotient(x: int, den: int)
    requires 0 <= x < B * B && 0 < den < B
    ensures 0 <= x / den < B * B && 0 <= x % den < B * B
  {
    DivNonNegative(x, den);
    DivShrinks(x, den, 1);
  }

  /** divide by a native integer of at most 64 bits, neither zero nor the least one. The quotient
      truncates, and wraps only for the least dividend over -1; the remainder takes the sign of the
      dividend. */
  method Divide(lhs: seq<Item>, rhs: int, quotient: array<Item>, remain: array<Item>)
    requires |lhs| >= 2 && quotient.Length == remain.Length == |lhs| && quotient != remain
    requires -SIGN_BIT < rhs < B && rhs != 0
    modifies quotient, remain
    ensures Value(quotient[..]) == Wrap(Quotient(Value(lhs), rhs), 8 * |lhs|)
    ensures Value(remain[..]) == CMod(Value(lhs), Abs(rhs))
  {
    hide Unsigned, Size, Value, Denotes, Range, Half, Fits, Wrap, CMod, Quotient;
    ghost var x := Value(lhs);
    var den := if rhs < 0 then -rhs else rhs;
    SignOfTop(lhs);
    ValueDenoted(lhs);
    UnsignedDenoted(lhs);
    SignedQuotient(x, rhs);
    if Unsigned(lhs) == 0 {
      ZeroValue(lhs);
      SmallQuotient(0, den);
      SetZero(quotient);
      ZeroDenoted(quotient[..]);
      Copy(lhs, remain);
    } else {
      var numerator := new Item[|lhs|](_ => 0);
      MakePositive(lhs, numerator);
      if Unsigned(numerator[..]) < den {
        SmallQuotient(Abs(x), den);
        SetZero(quotient);
        ZeroDenoted(quotient[..]);
        Copy(lhs, remain);
      } else {
        DivideMagnitudes(numerator[..], den, quotient, remain);
        if (rhs < 0) != IsNegative(lhs) {
          UnaryMinus(quotient, Abs(x) / den);
        }
        if IsNegative(lhs) {
          UnaryMinus(remain, Abs(x) % den);
        }
      }
    }
    DenotesValue(quotient[..], Quotient(x, rhs));
    DenotesValue(remain[..], CMod(x, den));
    RemainderFits(x, den, 8 * |lhs|);
    WrapNone(CMod(x, den), 8 * |lhs|);
  }

  lemma WrapNone(v: int, n: nat)
    requires n > 0 && Fits(v, n)
    ensures Wrap(v, n) == v
  {
  }

  lemma ZeroValue(s: seq<Item>)
    requires s != [] && Unsigned(s) == 0
    ensures Value(s) == 0
  {
  }
}
