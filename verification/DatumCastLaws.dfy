/** What the casts of DatumCast promise: rounding a query constant preserves the comparison it
    stands in, and the explicit cast is a monotone nearest-value projection. */
module DatumCastLaws {
  import opened Arithmetic
  import opened TwosComplement
  import opened WideInteger
  import opened DatumCast

  // ------------------------------------------------------------------ meaning of a comparison

  /** A value some column of precision p can hold. */
  predicate InColumn(c: int, p: nat) {
    -Pow10(p) < c < Pow10(p)
  }

  /** c at outScale and x at inScale brought over a common denominator: the column value c and the
      constant x denote numbers ordered as ColumnSide(c) and ConstantSide(x) are. */
  function ColumnSide(c: int, inScale: int, outScale: int): int {
    if inScale > outScale then c * Pow10(inScale - outScale) else c
  }

  function ConstantSide(x: int, inScale: int, outScale: int): int {
    if inScale < outScale then x * Pow10(outScale - inScale) else x
  }

  /** Comparing a column value with r answers column >= constant (and so column < constant). */
  ghost predicate PreservesUp(r: int, x: int, inScale: int, outScale: int, p: nat) {
    forall c | InColumn(c, p) ::
      ColumnSide(c, inScale, outScale) >= ConstantSide(x, inScale, outScale) <==> c >= r
  }

  /** Comparing a column value with r answers column <= constant (and so column > constant). */
  ghost predicate PreservesDown(r: int, x: int, inScale: int, outScale: int, p: nat) {
    forall c | InColumn(c, p) ::
      ColumnSide(c, inScale, outScale) <= ConstantSide(x, inScale, outScale) <==> c <= r
  }

  /** Comparing a column value with r answers column == constant. */
  ghost predicate PreservesEq(r: int, x: int, inScale: int, outScale: int, p: nat) {
    forall c | InColumn(c, p) ::
      ColumnSide(c, inScale, outScale) == ConstantSide(x, inScale, outScale) <==> c == r
  }

  // ------------------------------------------------------------------ when the cast is faithful

  /** The scaling step stays inside its C++ types: the magnitude of x exists in w bytes when
      scaling down, and the product exists in int512 when scaling up. */
  predicate NoOverflow(x: int, w: nat, inScale: int, outScale: int)
    requires w > 0
  {
    (inScale > outScale ==> x != MinOf(w)) &&
    (inScale < outScale ==> IsInt512(ConstantSide(x, inScale, outScale)))
  }

  /** An overflowed product still lands beyond the column's range on the side of x. */
  predicate WrapsOutward(x: int, inScale: int, outScale: int, p: nat) {
    && inScale < outScale
    && var r := Wrap512(ConstantSide(x, inScale, outScale));
       (x > 0 && r >= Pow10(p)) || (x < 0 && r <= -Pow10(p))
  }

  /** Saturating at the first value outside the column keeps every comparison with v. */
  lemma ClampPreserves(c: int, v: int, p: nat)
    requires InColumn(c, p)
    ensures c >= Clamp(v, -Pow10(p), Pow10(p)) <==> c >= v
    ensures c <= Clamp(v, -Pow10(p), Pow10(p)) <==> c <= v
    ensures c == Clamp(v, -Pow10(p), Pow10(p)) <==> c == v
  {
  }

  lemma ConstCastPreservesAt(c: int, x: int, w: nat, inScale: int, outScale: int, p: nat)
    requires w > 0 && InColumn(c, p) && NoOverflow(x, w, inScale, outScale)
    ensures var l, r := ColumnSide(c, inScale, outScale), ConstantSide(x, inScale, outScale);
            && (l >= r <==> c >= ConstCast(x, w, inScale, outScale, p, UP))
            && (l <= r <==> c <= ConstCast(x, w, inScale, outScale, p, DOWN))
            && (l == r <==> c == ConstCast(x, w, inScale, outScale, p, EQ))
  {
    hide Pow10, Half, Range, Wrap, Fits, IsInt512, Floor, Ceil, CDiv, Clamp;
    if inScale < outScale {
      ScaledUpExact(x, w, inScale, outScale);
      ClampPreserves(c, ConstantSide(x, inScale, outScale), p);
    } else if inScale == outScale {
      SameScaleValue(x, w);
      ClampPreserves(c, x, p);
    } else {
      var d := Pow10(inScale - outScale);
      CeilBound(c, x, d);
      FloorBound(c, x, d);
      MultipleExact(c, x, d);
      ClampPreserves(c, Ceil(x, d), p);
      ClampPreserves(c, Floor(x, d), p);
      ClampPreserves(c, CDiv(x, d), p);
    }
  }

  lemma SameScaleValue(x: int, w: nat)
    requires w > 0
    ensures !Inexact(x, w, 0)
    ensures forall cm :: ConstScaledDown(x, w, 0, cm) == x
  {
    PowZero(x);
  }

  /** Rounding the constant preserves the meaning of all six comparisons, for every column value,
      whenever the scaling step does not overflow. */
  lemma ConstCastPreserves(x: int, w: nat, inScale: int, outScale: int, p: nat)
    requires w > 0 && NoOverflow(x, w, inScale, outScale)
    ensures PreservesUp(ConstCast(x, w, inScale, outScale, p, UP), x, inScale, outScale, p)
    ensures PreservesDown(ConstCast(x, w, inScale, outScale, p, DOWN), x, inScale, outScale, p)
    ensures PreservesEq(ConstCast(x, w, inScale, outScale, p, EQ), x, inScale, outScale, p)
  {
    hide ConstCast, ColumnSide, ConstantSide, NoOverflow, Pow10, Half, Range;
    forall c | InColumn(c, p)
      ensures ColumnSide(c, inScale, outScale) >= ConstantSide(x, inScale, outScale)
         <==> c >= ConstCast(x, w, inScale, outScale, p, UP)
      ensures ColumnSide(c, inScale, outScale) <= ConstantSide(x, inScale, outScale)
         <==> c <= ConstCast(x, w, inScale, outScale, p, DOWN)
      ensures ColumnSide(c, inScale, outScale) == ConstantSide(x, inScale, outScale)
         <==> c == ConstCast(x, w, inScale, outScale, p, EQ)
    {
      ConstCastPreservesAt(c, x, w, inScale, outScale, p);
    }
  }

  /** Exactly when rounding the constant preserves every comparison: no overflow, or an overflow
      that happens to saturate on the right side. */
  lemma ConstCastPreservesIff(x: int, w: nat, inScale: int, outScale: int, p: nat)
    requires w > 0 && 1 <= p <= MAX_POSSIBLE_PRECISION
    ensures (&& PreservesUp(ConstCast(x, w, inScale, outScale, p, UP), x, inScale, outScale, p)
             && PreservesDown(ConstCast(x, w, inScale, outScale, p, DOWN), x, inScale, outScale, p)
             && PreservesEq(ConstCast(x, w, inScale, outScale, p, EQ), x, inScale, outScale, p))
       <==> NoOverflow(x, w, inScale, outScale) || WrapsOutward(x, inScale, outScale, p)
  {
    hide Pow10, Half, Range, Wrap, Fits, IsInt512;
    if NoOverflow(x, w, inScale, outScale) {
      ConstCastPreserves(x, w, inScale, outScale, p);
    } else if inScale > outScale {
      LostSignFails(x, w, inScale - outScale, p);
      assert InColumn(0, p);
      assert ColumnSide(0, inScale, outScale) > ConstantSide(x, inScale, outScale);
      assert 0 <= ConstCast(x, w, inScale, outScale, p, DOWN);
    } else {
      OverflowedProduct(x, inScale, outScale, p);
    }
  }

  /** The smallest w-byte value comes out non-negative. */
  lemma LostSignFails(x: int, w: nat, s: nat, p: nat)
    requires w > 0 && s > 0 && x == MinOf(w)
    ensures InColumn(0, p) && x < 0 && 0 * Pow10(s) == 0
    ensures 0 <= Clamp(ConstScaledDown(x, w, s, DOWN), -Pow10(p), Pow10(p))
  {
    DivNonNegative(-x, Pow10(s));
  }

  lemma OverflowedProduct(x: int, inScale: int, outScale: int, p: nat)
    requires 1 <= p <= MAX_POSSIBLE_PRECISION && inScale < outScale
    requires !IsInt512(ConstantSide(x, inScale, outScale))
    ensures var v := ConstantSide(x, inScale, outScale);
            var r := Clamp(Wrap512(v), -Pow10(p), Pow10(p));
            && (PreservesUp(r, x, inScale, outScale, p) && PreservesDown(r, x, inScale, outScale, p)
                && PreservesEq(r, x, inScale, outScale, p)
                <==> WrapsOutward(x, inScale, outScale, p))
  {
    hide Pow10, Half, Range, Wrap, Fits, Wrap512, IsInt512, ConstantSide;
    var v, b := ConstantSide(x, inScale, outScale), Pow10(p);
    OutsideInt512(v, p);
    assert b >= 10 by { TenAtLeast(p); }
    ConstantSideSign(x, inScale, outScale);
    assert InColumn(b - 1, p) && InColumn(1 - b, p);
    var r := Clamp(Wrap512(v), -b, b);
    if v > 0 && r < b {
      assert ColumnSide(b - 1, inScale, outScale) < v && b - 1 >= r;
      assert !PreservesUp(r, x, inScale, outScale, p);
    }
    if v < 0 && r > -b {
      assert ColumnSide(1 - b, inScale, outScale) > v && 1 - b <= r;
      assert !PreservesDown(r, x, inScale, outScale, p);
    }
  }

  lemma TenAtLeast(p: nat)
    requires p > 0
    ensures Pow10(p) >= 10
  {
    Pow10Monotone(1, p);
  }

  lemma ConstantSideSign(x: int, inScale: int, outScale: int)
    ensures ConstantSide(x, inScale, outScale) > 0 <==> x > 0
    ensures ConstantSide(x, inScale, outScale) < 0 <==> x < 0
  {
    hide Pow10;
    if inScale < outScale {
      MulStrictlyMonotone(Pow10(outScale - inScale), 0, x);
      MulStrictlyMonotone(Pow10(outScale - inScale), x, 0);
    }
  }

  lemma ConstantSideMonotone(x: int, y: int, inScale: int, outScale: int)
    requires x <= y
    ensures ConstantSide(x, inScale, outScale) <= ConstantSide(y, inScale, outScale)
  {
    hide Pow10;
    if inScale < outScale {
      MulMonotone(Pow10(outScale - inScale), x, y);
    }
  }

  lemma OverflowCases(x: int, w: nat, inScale: int, outScale: int)
    requires w > 0 && NoOverflow(x, w, inScale, outScale)
    ensures inScale > outScale ==> x != MinOf(w)
  {
  }

  /** Without overflow, scaling up is exact. */
  lemma ScaledUpExact(x: int, w: nat, inScale: int, outScale: int)
    requires w > 0 && inScale < outScale && NoOverflow(x, w, inScale, outScale)
    ensures ScaledUp(x, outScale - inScale) == ConstantSide(x, inScale, outScale)
  {
    hide Pow10, IsInt512, Wrap512;
    Wrap512Facts(ConstantSide(x, inScale, outScale));
  }

  /** No column value reaches a product that int512 cannot hold. */
  lemma OutsideInt512(v: int, p: nat)
    requires 1 <= p <= MAX_POSSIBLE_PRECISION && !IsInt512(v)
    ensures v > Pow10(p) || v < -Pow10(p)
  {
    hide Pow10, Half, Range;
    Pow10Monotone(p, MAX_POSSIBLE_PRECISION);
    WidthLimit(64);
  }

  /** The failing family is real: INT32_MIN at scale 1 against an integer column gives +214748364
      for the largest integer not above -214748364.8. */
  lemma SmallestValueLosesSign()
    ensures MinOf(4) == -2147483648
    ensures ConstCast(MinOf(4), 4, 1, 0, 10, DOWN) == 214748364
    ensures !PreservesDown(ConstCast(MinOf(4), 4, 1, 0, 10, DOWN), MinOf(4), 1, 0, 10)
  {
    assert Pow10(1) == 10;
    PowStep(5, 5, 100000, 100000);
    assert ConstScaledDown(MinOf(4), 4, 1, DOWN) == 214748364;
    assert InColumn(0, 10) && ColumnSide(0, 1, 0) == 0;
  }

  /** So is the other one: the smallest 512-bit value, brought to one more decimal, wraps to 0 and selects
      the column value 0, which is not below it. */
  lemma ProductPastInt512Wraps()
    ensures ConstCast(MinOf(64), 64, 0, 1, 1, DOWN) == 0
    ensures !PreservesDown(ConstCast(MinOf(64), 64, 0, 1, 1, DOWN), MinOf(64), 0, 1, 1)
  {
    hide Half, Range, Wrap, Fits;
    assert Pow10(1) == 10;
    TenHalvesWrap(64);
    assert ScaledUp(MinOf(64), 1) == 0;
    assert InColumn(0, 1) && ColumnSide(0, 0, 1) > ConstantSide(MinOf(64), 0, 1);
  }

  lemma TenHalvesWrap(n: nat)
    requires n > 0
    ensures Wrap(MinOf(n) * 10, n) == 0 && MinOf(n) * 10 < 0
  {
    WrapCongruent(0, -5, n);
    assert 0 + Range(n) * -5 == MinOf(n) * 10;
  }

  /** Every decimal that fits its own declared precision, moved by at most 72 digits, is safe; the
      largest column scale of the system is 30. */
  lemma WellFormedNoOverflow(x: int, inPrec: nat, inScale: int, outScale: int)
    requires 1 <= inPrec <= MAX_POSSIBLE_PRECISION && InColumn(x, inPrec)
    requires outScale - inScale <= 72
    ensures NoOverflow(x, IntBytesByPrecision(inPrec), inScale, outScale)
  {
    hide Half, Range;
    var w := IntBytesByPrecision(inPrec);
    BoundsFit(inPrec);
    if inScale < outScale {
      ProductBound(x, inPrec, outScale - inScale);
    }
  }

  lemma ProductBound(x: int, p: nat, d: nat)
    requires p <= MAX_POSSIBLE_PRECISION && d <= 72 && InColumn(x, p)
    ensures IsInt512(x * Pow10(d))
  {
    hide Pow10, Half, Range;
    Pow10Monotone(p, 81);
    Pow10Monotone(d, 72);
    Pow10Add(81, 72);
    Int512Limit();
    ProductWithin(x, Pow10(81), Pow10(d), Pow10(72));
  }

  lemma ProductWithin(x: int, b: int, d: int, e: int)
    requires -b < x < b && 0 < d <= e
    ensures -(b * e) < x * d < b * e
  {
    MulStrictlyMonotone(d, x, b);
    MulStrictlyMonotone(d, -b, x);
    MulMonotone(b, d, e);
    assert d * -b == -(b * d);
  }

  lemma Int512Limit()
    ensures Pow10(153) < Half(64)
  {
    PowStep(9, 9, 1000000000, 1000000000);
    PowStep(18, 18, 1000000000000000000, 1000000000000000000);
    PowStep(36, 36, 1000000000000000000000000000000000000, 1000000000000000000000000000000000000);
    PowLiterals();
    PowStep(81, 72, 1000000000000000000000000000000000000000000000000000000000000000000000000000000000,
            1000000000000000000000000000000000000000000000000000000000000000000000000);
    RangeLiterals();
  }

  // ------------------------------------------------------------------ explicit cast

  /** The explicit cast keeps order. */
  lemma ExplicitCastMonotone(x: int, y: int, w: nat, inScale: int, outScale: int, p: nat)
    requires w > 0 && x <= y
    requires NoOverflow(x, w, inScale, outScale) && NoOverflow(y, w, inScale, outScale)
    ensures ExplicitCast(x, w, inScale, outScale, p) <= ExplicitCast(y, w, inScale, outScale, p)
  {
    hide Pow10, Half, NoOverflow, ScaledUp, ConstantSide, RoundHalfAway;
    OverflowCases(x, w, inScale, outScale);
    OverflowCases(y, w, inScale, outScale);
    if inScale < outScale {
      ScaledUpExact(x, w, inScale, outScale);
      ScaledUpExact(y, w, inScale, outScale);
      ConstantSideMonotone(x, y, inScale, outScale);
    } else if inScale > outScale {
      RoundHalfAwayMonotone(x, y, Pow10(inScale - outScale));
    }
  }

  /** Unless it saturates, the explicit cast is off by at most half a unit of the last digit, and
      by exactly half only away from zero. */
  lemma ExplicitCastNearest(x: int, w: nat, inScale: int, outScale: int, p: nat)
    requires w > 0 && NoOverflow(x, w, inScale, outScale)
    requires InColumn(ExplicitCast(x, w, inScale, outScale, p), p)
    ensures var r := ColumnSide(ExplicitCast(x, w, inScale, outScale, p), inScale, outScale);
            var v := ConstantSide(x, inScale, outScale);
            if inScale <= outScale then r == v
            else var d := Pow10(inScale - outScale);
                 if x >= 0 then 2 * v - d < 2 * r <= 2 * v + d else 2 * v - d <= 2 * r < 2 * v + d
  {
    hide Pow10, Half, Range, Wrap, Fits, IsInt512, RoundHalfAway, ScaledUp;
    if inScale < outScale {
      ScaledUpExact(x, w, inScale, outScale);
    } else if inScale > outScale {
      RoundHalfAwayNearest(x, Pow10(inScale - outScale));
    }
  }

  /** The explicit cast lies between the two comparison bounds of the same constant. */
  lemma ExplicitCastBracketed(x: int, w: nat, inScale: int, outScale: int, p: nat)
    requires w > 0 && NoOverflow(x, w, inScale, outScale)
    ensures ConstCast(x, w, inScale, outScale, p, DOWN)
         <= ExplicitCast(x, w, inScale, outScale, p)
         <= ConstCast(x, w, inScale, outScale, p, UP)
  {
    hide Pow10, Half, Range, Wrap, Fits, IsInt512, Floor, Ceil, RoundHalfAway;
    if inScale == outScale {
      SameScaleValue(x, w);
    } else if inScale > outScale {
      RoundBetween(x, Pow10(inScale - outScale));
    }
  }

  lemma RoundBetween(x: int, d: int)
    requires d > 0
    ensures Floor(x, d) <= RoundHalfAway(x, d) <= Ceil(x, d)
  {
    var r := RoundHalfAway(x, d);
    TruncToFloorCeil(x, d);
    NegQuotient(x, d);
  }

  /** Widening to more decimals and casting back returns the original value. */
  lemma ExplicitCastRoundTrip(x: int, w: nat, w': nat, s: int, s': int, p: nat, p': nat)
    requires w > 0 && w' > 0 && s <= s' && NoOverflow(x, w, s, s')
    requires InColumn(x, p) && InColumn(ConstantSide(x, s, s'), p')
    requires ConstantSide(x, s, s') != MinOf(w')
    ensures var wide := ExplicitCast(x, w, s, s', p');
            ExplicitCast(wide, w', s', s, p) == x
  {
    hide Pow10, Half, Range, Wrap, Fits, IsInt512, RoundHalfAway, ScaledUp;
    if s < s' {
      ScaledUpExact(x, w, s, s');
      RoundHalfAwayInverse(x, Pow10(s' - s));
    }
  }

  // ------------------------------------------------------------------ what the dispatcher returns

  /** x brought to outScale: exact when scaling up, otherwise to the nearest, halves away from zero. */
  predicate RoundsTo(m: int, x: int, inScale: int, outScale: int) {
    var c, v := ColumnSide(m, inScale, outScale), ConstantSide(x, inScale, outScale);
    if inScale <= outScale then c == v
    else
      var d := Pow10(inScale - outScale);
      if x >= 0 then 2 * v - d < 2 * c <= 2 * v + d else 2 * v - d <= 2 * c < 2 * v + d
  }

  /** The mode bits alone say what a range-checked cast means for the caller: a constant keeps the
      comparison its bit names, and without a constant bit the value is rounded and saturated. */
  lemma CheckedCastMeans(x: int, w: nat, inScale: int, outScale: int, p: nat, cm: CastMode)
    requires w > 0 && NoOverflow(x, w, inScale, outScale)
    ensures cm.constUp && !cm.constDown && !cm.constEq ==>
              PreservesUp(CheckedCast(x, w, inScale, outScale, p, cm), x, inScale, outScale, p)
    ensures cm.constDown && !cm.constUp && !cm.constEq ==>
              PreservesDown(CheckedCast(x, w, inScale, outScale, p, cm), x, inScale, outScale, p)
    ensures cm.constEq && !cm.constUp && !cm.constDown ==>
              PreservesEq(CheckedCast(x, w, inScale, outScale, p, cm), x, inScale, outScale, p)
    ensures !cm.constUp && !cm.constDown && !cm.constEq ==>
              && (exists m :: RoundsTo(m, x, inScale, outScale))
              && (forall m | RoundsTo(m, x, inScale, outScale) ::
                    CheckedCast(x, w, inScale, outScale, p, cm)
                    == if m >= Pow10(p) then Pow10(p) else if m <= -Pow10(p) then -Pow10(p) else m)
  {
    hide Pow10, Half, Range, Wrap, Fits, IsInt512, NoOverflow, PreservesUp, PreservesDown, PreservesEq, Inexact,
      CommonScaled, RoundsTo, ScaledUp, Floor, Ceil, CDiv;
    ConstCastPreserves(x, w, inScale, outScale, p);
    CommonScaledRounds(x, w, inScale, outScale);
    var m := CommonScaled(x, w, inScale, outScale);
    forall n | RoundsTo(n, x, inScale, outScale) ensures n == m {
      RoundsToUnique(m, n, x, inScale, outScale);
    }
  }

  lemma CommonScaledRounds(x: int, w: nat, inScale: int, outScale: int)
    requires w > 0 && NoOverflow(x, w, inScale, outScale)
    ensures RoundsTo(CommonScaled(x, w, inScale, outScale), x, inScale, outScale)
  {
    hide Pow10, Half, Range, Wrap, Fits, IsInt512, RoundHalfAway, ScaledUp;
    if inScale < outScale {
      ScaledUpExact(x, w, inScale, outScale);
    } else if inScale > outScale {
      RoundHalfAwayNearest(x, Pow10(inScale - outScale));
    }
  }

  lemma RoundsToUnique(m: int, n: int, x: int, inScale: int, outScale: int)
    requires RoundsTo(m, x, inScale, outScale) && RoundsTo(n, x, inScale, outScale)
    ensures m == n
  {
    hide Pow10;
    if inScale > outScale {
      var d := Pow10(inScale - outScale);
      assert (m - n) * d == m * d - n * d;
      if m > n {
        MulMonotone(d, 1, m - n);
      } else if n > m {
        MulMonotone(d, m - n, -1);
      }
    }
  }

  // ------------------------------------------------------------------ exactness of the scaling step

  /** The extra-decimals flag is right for every input but one per width: no power of ten divides
      the smallest w-byte value, yet the code never sees its remainder. */
  lemma InexactIff(x: int, w: nat, s: nat)
    requires w > 0
    ensures (Inexact(x, w, s) <==> x % Pow10(s) != 0) <==> s == 0 || x != MinOf(w)
  {
    if s > 0 && x == MinOf(w) {
      TenDividesNoHalf(w);
      if x % Pow10(s) == 0 {
        MulAssociative(10, Pow10(s - 1), x / Pow10(s));
        QuotientUnique(x, 10, Pow10(s - 1) * (x / Pow10(s)), 0);
      }
    }
  }

  lemma TenDividesNoHalf(w: nat)
    requires w > 0
    ensures MinOf(w) % 10 != 0
  {
    RangeModFive(w - 1);
    var r := Range(w - 1);
    assert r == 5 * (r / 5) + 1;
    if MinOf(w) % 10 == 0 {
      assert -128 * r == 10 * (MinOf(w) / 10);
      QuotientUnique(-128 * r, 5, 2 * (MinOf(w) / 10), 0);
      QuotientUnique(-128 * r, 5, -128 * (r / 5) - 26, 2);
    }
  }

  lemma {:induction false} RangeModFive(n: nat)
    ensures Range(n) % 5 == 1
  {
    if n > 0 {
      RangeModFive(n - 1);
    }
  }

  /** common_scale_decimalint is exact (scaling up) or rounds to nearest (scaling down) unless the
      step overflows; the one harmless overflow is a smallest value that rounds to zero anyway. */
  lemma CommonScaledIff(x: int, w: nat, inScale: int, outScale: int)
    requires w > 0
    ensures (if inScale < outScale
             then CommonScaled(x, w, inScale, outScale) == ConstantSide(x, inScale, outScale)
             else CommonScaled(x, w, inScale, outScale) == RoundHalfAway(x, Pow10(inScale - outScale)))
       <==> NoOverflow(x, w, inScale, outScale) ||
            (inScale > outScale && 2 * Half(w) < Pow10(inScale - outScale))
  {
    if inScale < outScale {
      hide Pow10, Wrap512, IsInt512;
      Wrap512Facts(ConstantSide(x, inScale, outScale));
    } else if inScale == outScale {
      RoundByOne(x);
    } else if x == MinOf(w) {
      hide Pow10, Range;
      SmallestRounds(Half(w), Pow10(inScale - outScale));
    }
  }

  /** Truncating is right in every case but a smallest value that does not truncate to zero. */
  lemma TruncatedIff(x: int, w: nat, s: nat)
    requires w > 0
    ensures ScaledDownTruncated(x, w, s) == CDiv(x, Pow10(s))
       <==> s == 0 || x != MinOf(w) || Half(w) < Pow10(s)
  {
    hide Half, Range, Pow10;
    if x == MinOf(w) {
      var h, d := Half(w), Pow10(s);
      assert h == d * (h / d) + h % d;
      DivNonNegative(h, d);
      if h < d {
        QuotientUnique(h, d, 0, h);
      }
    }
  }

  lemma RoundByOne(x: int)
    ensures RoundHalfAway(x, Pow10(0)) == x
  {
  }

  lemma SmallestRounds(h: int, d: int)
    requires h > 0 && d > 0
    ensures -CDiv(-h, d) == RoundHalfAway(-h, d) <==> 2 * h < d
  {
    assert h == d * (h / d) + h % d;
    DivNonNegative(h, d);
    if h < d {
      QuotientUnique(h, d, 0, h);
    }
  }
}
