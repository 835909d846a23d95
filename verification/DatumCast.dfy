/** ObDatumCast: decimal ints brought to a column's precision and scale.

    A query constant is rounded up, down or to "no such value" according to the comparison it
    stands in, so that comparing the column with the rounded constant selects the same rows as
    comparing it with the constant itself. An explicit cast or a column conversion rounds to
    nearest. Both saturate at the first values outside the column's range. */
module DatumCast {
  import opened Arithmetic
  import opened TwosComplement
  import opened DecimalIntBuilders
  import opened WideInteger
  import opened Errors

  /** The cast-mode bits these functions test. */
  datatype CastMode = CastMode(constUp: bool, constDown: bool, constEq: bool,
                               columnConvert: bool, explicitCast: bool)
  {
    predicate IsConstToDecimalInt() {
      constUp || constDown || constEq
    }
  }

  const UP := CastMode(true, false, false, false, false)
  const DOWN := CastMode(false, true, false, false, false)
  const EQ := CastMode(false, false, true, false, false)

  const PRECISION_UNKNOWN_YET: int := -1

  // ------------------------------------------------------------------ scale_down_decimalint

  /** Dropping a digits of the magnitude r0 loses a nonzero digit. */
  ghost predicate Lost(r0: int, a: nat) {
    r0 > 0 && r0 % Pow10(a) != 0
  }

  lemma LostChunk(r0: int, a: nat, i: nat)
    requires i < 5
    ensures CDiv(CDiv(r0, Pow10(a)), POWS[i]) == CDiv(r0, Pow10(a + BITS[i]))
    ensures Lost(r0, a + BITS[i]) <==> Lost(r0, a) || CMod(CDiv(r0, Pow10(a)), POWS[i]) > 0
  {
    hide CDiv, CMod, Pow10, Carried;
    DropChunk(r0, a, i);
  }

  /** The loop of scale_down_decimalint on the magnitude r0: binary digits of the scale from the
      top, one digit at a time when the scale exceeds 31, stopping early at zero. */
  method DropDecimals(r0: int, scale: nat) returns (result: int, hasExtra: bool)
    ensures result == CDiv(r0, Pow10(scale))
    ensures hasExtra == Lost(r0, scale)
  {
    var s: nat := scale;
    var remain;
    result, hasExtra := r0, false;
    PowZero(r0);
    assert !Lost(r0, 0);
    hide CDiv, CMod, Lost, Pow10, HasBit;
    while s != 0 && result != 0
      invariant s <= scale && result == CDiv(r0, Pow10(scale - s)) && hasExtra == Lost(r0, scale - s)
      decreases s
    {
      ghost var s0 := s;
      var i := 4;
      while s != 0 && result != 0 && i >= 0
        invariant -1 <= i <= 4 && s <= s0
        invariant result == CDiv(r0, Pow10(scale - s)) && hasExtra == Lost(r0, scale - s)
        decreases i
      {
        if HasBit(s, i) {
          BitFits(s, i);
          LostChunk(r0, scale - s, i);
          if !hasExtra {
            remain := CMod(result, POWS[i]);
            hasExtra := remain > 0;
          }
          result := CDiv(result, POWS[i]);
          s := s - BITS[i];
        }
        i := i - 1;
      }
      if s != 0 {
        LostChunk(r0, scale - s, 0);
        if !hasExtra {
          remain := CMod(result, 10);
          hasExtra := remain > 0;
        }
        result := CDiv(result, 10);
        s := s - 1;
      }
    }
    if s != 0 {
      LostRest(r0, scale - s, scale);
    }
  }

  lemma LostRest(r0: int, a: nat, s: nat)
    requires a <= s && CDiv(r0, Pow10(a)) == 0
    ensures CDiv(r0, Pow10(s)) == 0 && (Lost(r0, s) <==> Lost(r0, a))
  {
    hide CDiv, Pow10;
    DropRest(r0, a, s);
  }

  /** The digits dropped from a w-byte x were not all zero. The smallest w-byte value has no
      w-byte magnitude and is never noticed to be inexact. */
  function Inexact(x: int, w: nat, s: nat): bool
    requires w > 0
  {
    x % Pow10(s) != 0 && (s == 0 || x != MinOf(w))
  }

  /** The scaled-down constant: ceiling, floor or truncation as the mode asks. The smallest w-byte
      value loses its sign. */
  function ConstScaledDown(x: int, w: nat, s: nat, cm: CastMode): int
    requires w > 0
  {
    if s > 0 && x == MinOf(w) then -CDiv(x, Pow10(s))
    else if cm.constUp then Ceil(x, Pow10(s))
    else if cm.constDown then Floor(x, Pow10(s))
    else CDiv(x, Pow10(s))
  }

  method ScaleDownDecimalint(x: int, w: nat, scale: nat, res: DecimalIntBuilder, cm: CastMode)
      returns (hasExtra: bool)
    requires res.Valid() && 4 <= w <= BUFFER_SIZE && Fits(x, w)
    modifies res, res.buffer
    ensures res.Valid() && res.intBytes == w
    ensures hasExtra == Inexact(x, w, scale)
    ensures res.Value() == ConstScaledDown(x, w, scale, cm)
  {
    var result := x;
    var isNeg := x < 0;
    if isNeg {
      result := Wrap(-result, w);
    }
    ScaleDownResult(x, w, scale, cm);
    hide CDiv, Lost, Inexact, Wrap, Fits, Half, Range, Pow10, ConstScaledDown;
    result, hasExtra := DropDecimals(result, scale);
    if isNeg {
      result := Wrap(-result, w);
    }
    if hasExtra {
      if cm.constUp {
        if !isNeg {
          result := result + 1;
        }
      } else if cm.constDown {
        if isNeg {
          result := result - 1;
        }
      }
    }
    res.FromValue(result, w);
  }

  /** From the magnitude to the result: sign restored, then adjusted outward. */
  lemma ScaleDownResult(x: int, w: nat, s: nat, cm: CastMode)
    requires 4 <= w && Fits(x, w)
    ensures var r0 := if x < 0 then Wrap(-x, w) else x;
            var q := if x < 0 then Wrap(-CDiv(r0, Pow10(s)), w) else CDiv(r0, Pow10(s));
            && Lost(r0, s) == Inexact(x, w, s)
            && ConstScaledDown(x, w, s, cm) ==
                 q + (if Lost(r0, s) && cm.constUp && x >= 0 then 1
                      else if Lost(r0, s) && !cm.constUp && cm.constDown && x < 0 then -1 else 0)
    ensures Wrap(ConstScaledDown(x, w, s, cm), w) == ConstScaledDown(x, w, s, cm)
  {
    WrapNegated(x, w);
    var r0 := if x < 0 then Wrap(-x, w) else x;
    Shrinks(r0, w, s);
    TruncToFloorCeil(x, Pow10(s));
    if s == 0 {
      PowZero(r0);
      PowZero(x);
      WrapNegated(r0, w);
    } else {
      MagnitudeQuotient(x, Pow10(s));
      WrapSmall(CDiv(r0, Pow10(s)), w);
    }
  }

  lemma MagnitudeQuotient(x: int, d: int)
    requires d > 0
    ensures CDiv(-x, d) == -CDiv(x, d)
    ensures x == 0 ==> x % d == 0
  {
    if x == 0 {
      QuotientUnique(0, d, 0, 0);
    }
  }

  // ------------------------------------------------------------------ scale_const_decimalint_expr

  /** What the constant x, w bytes wide at inScale, becomes at outScale and precision p. */
  function ConstCast(x: int, w: nat, inScale: int, outScale: int, p: nat, cm: CastMode): int
    requires w > 0
  {
    var bound := Pow10(p);
    if inScale < outScale then Clamp(ScaledUp(x, outScale - inScale), -bound, bound)
    else if cm.constEq && Inexact(x, w, inScale - outScale) then bound
    else Clamp(ConstScaledDown(x, w, inScale - outScale, cm), -bound, bound)
  }

  /** Saturates res strictly outside the bounds and re-sizes it to the expected width. */
  method ClampToWidth(res: DecimalIntBuilder, minV: DecimalIntBuilder, maxV: DecimalIntBuilder,
                      expected: nat, ghost bound: int)
      returns (ret: ObRet)
    requires res.Valid() && minV.Valid() && maxV.Valid()
    requires res != minV && res != maxV && res.buffer != minV.buffer && res.buffer != maxV.buffer
    requires ValidWidth(expected) && minV.intBytes == maxV.intBytes == expected && bound > 0
    requires minV.Value() == -bound && maxV.Value() == bound
    modifies res, res.buffer
    ensures res.Valid()
    ensures ret == if ValidWidth(old(res.intBytes)) then Success else ErrUnexpected
    ensures ret.Success? ==> res.intBytes == expected && res.Value() == Clamp(old(res.Value()), -bound, bound)
  {
    hide Wrap, Half, Range;
    var cmpMin, cmpMax;
    ret, cmpMin := Compare(res, minV);
    if !ret.Success? { return; }
    ret, cmpMax := Compare(res, maxV);
    ghost var v := res.Value();
    if cmpMax < 0 && cmpMin > 0 {
      BetweenFits(v, bound, minV.Bytes(), maxV.Bytes(), expected);
      if expected > res.intBytes {
        res.Extend(expected);
      } else if expected < res.intBytes {
        res.Truncate(expected);
      }
    } else if cmpMax >= 0 {
      res.FromBuilder(maxV);
    } else if cmpMin <= 0 {
      res.FromBuilder(minV);
    }
  }

  /** A value strictly between two n-byte values is itself an n-byte value. */
  lemma BetweenFits(v: int, bound: int, lo: seq<byte>, hi: seq<byte>, n: nat)
    requires 0 < n == |lo| == |hi| && Signed(lo) == -bound && Signed(hi) == bound && -bound < v < bound
    ensures Fits(v, n) && Wrap(v, n) == v
  {
    SignedIsWrap(lo);
    SignedIsWrap(hi);
  }

  method ScaleConstDecimalintExpr(decint: seq<byte>, inScale: int, outScale: int, outPrec: nat,
                                  cm: CastMode, res: DecimalIntBuilder)
      returns (ret: ObRet)
    requires res.Valid() && 1 <= outPrec <= MAX_POSSIBLE_PRECISION
    modifies res, res.buffer
    ensures res.Valid()
    ensures ret == if ValidWidth(|decint|) || (inScale == outScale && |decint| > BUFFER_SIZE)
                   then Success else ErrUnexpected
    ensures ret.Success? ==> res.intBytes == IntBytesByPrecision(outPrec)
    ensures ValidWidth(|decint|) ==> res.Value() == ConstCast(Signed(decint), |decint|, inScale, outScale, outPrec, cm)
  {
    hide Inexact, ConstScaledDown, ScaledUp, Pow10, IntBytesByPrecision, ValidWidth, Signed;
    var hasExtra := false;
    var expected := IntBytesByPrecision(outPrec);
    var minV, maxV := Bounds(outPrec);
    ret := Success;
    if inScale != outScale {
      ret, hasExtra := DoScale(decint, inScale, outScale, cm, res);
      if !ret.Success? { return; }
    } else {
      SameScale(decint, cm);
      res.FromBytes(decint);
    }
    if cm.constEq && hasExtra {
      res.FromBuilder(maxV);
    } else {
      ret := ClampToWidth(res, minV, maxV, expected, Pow10(outPrec));
    }
  }

  /** DO_SCALE, dispatched on the width of the constant. */
  method DoScale(decint: seq<byte>, inScale: int, outScale: int, cm: CastMode, res: DecimalIntBuilder)
      returns (ret: ObRet, hasExtra: bool)
    requires res.Valid() && inScale != outScale
    modifies res, res.buffer
    ensures res.Valid()
    ensures ret == if ValidWidth(|decint|) then Success else ErrUnexpected
    ensures ret.Success? ==> ValidWidth(res.intBytes)
    ensures ret.Success? && inScale < outScale ==>
              res.Value() == ScaledUp(Signed(decint), outScale - inScale) && !hasExtra
    ensures ret.Success? && inScale > outScale ==>
              && res.Value() == ConstScaledDown(Signed(decint), |decint|, inScale - outScale, cm)
              && hasExtra == Inexact(Signed(decint), |decint|, inScale - outScale)
  {
    hide Half, Range, Wrap, Fits, Wrap512, IsInt512, Inexact, ConstScaledDown, ScaledUp, Pow10;
    hasExtra := false;
    if !ValidWidth(|decint|) {
      return ErrUnexpected, false;
    }
    var v := Signed(decint);
    SignedIsWrap(decint);
    WidthIsInt512(v, |decint|);
    if inScale < outScale {
      ScaleUpDecimalint(v, outScale - inScale, res);
    } else {
      hasExtra := ScaleDownDecimalint(v, |decint|, inScale - outScale, res, cm);
    }
    ret := Success;
  }

  /** min_lower and max_upper of a precision, held at its width. */
  method Bounds(prec: nat) returns (minV: DecimalIntBuilder, maxV: DecimalIntBuilder)
    requires 1 <= prec <= MAX_POSSIBLE_PRECISION
    ensures minV.Valid() && maxV.Valid() && fresh(minV) && fresh(maxV) && fresh(minV.buffer) && fresh(maxV.buffer)
    ensures minV != maxV && minV.buffer != maxV.buffer
    ensures minV.intBytes == maxV.intBytes == IntBytesByPrecision(prec)
    ensures minV.Value() == -Pow10(prec) && maxV.Value() == Pow10(prec)
  {
    hide Half, Range, Pow10;
    BoundsFit(prec);
    minV := new DecimalIntBuilder();
    maxV := new DecimalIntBuilder();
    minV.FromValue(-Pow10(prec), IntBytesByPrecision(prec));
    maxV.FromValue(Pow10(prec), IntBytesByPrecision(prec));
  }

  /** At equal scales nothing is dropped, and the constant's bytes are taken as they are. */
  lemma SameScale(decint: seq<byte>, cm: CastMode)
    ensures ValidWidth(|decint|) ==>
              && !Inexact(Signed(decint), |decint|, 0)
              && ConstScaledDown(Signed(decint), |decint|, 0, cm) == Signed(decint)
    ensures ValidWidth(|decint|) ==> |decint| <= BUFFER_SIZE
    ensures |decint| <= BUFFER_SIZE ==> decint[..Min(BUFFER_SIZE, |decint|)] == decint
    ensures |decint| > BUFFER_SIZE ==> !ValidWidth(|decint|) && ValidWidth(BUFFER_SIZE)
  {
    if decint != [] {
      PowZero(Signed(decint));
    }
  }

  // ------------------------------------------------------------------ align and common_scale

  /** Re-sizes without a range check. The value survives exactly when the expected width holds it. */
  method AlignDecintPrecisionUnsafe(decint: seq<byte>, expected: nat, res: DecimalIntBuilder)
    requires res.Valid() && |decint| <= BUFFER_SIZE && expected <= BUFFER_SIZE
    modifies res, res.buffer
    ensures res.Valid() && res.intBytes == expected
    ensures decint != [] && expected > 0 ==> res.Value() == Wrap(Signed(decint), expected)
    ensures decint != [] && expected > 0 ==>
              (res.Value() == Signed(decint) <==> Fits(Signed(decint), expected))
  {
    hide Half, Range;
    res.FromBytes(decint);
    assert decint[..|decint|] == decint;
    if decint != [] {
      SignedIsWrap(decint);
    }
    if |decint| > expected {
      res.Truncate(expected);
    } else if |decint| < expected {
      res.Extend(expected);
      if decint != [] {
        WiderFits(Signed(decint), |decint|, expected);
      }
    }
  }

  lemma WiderFits(v: int, n: nat, m: nat)
    requires 0 < n <= m && Fits(v, n)
    ensures Fits(v, m)
  {
    HalfMonotone(n, m);
  }

  /** What an explicit cast or column conversion denotes. */
  function ExplicitCast(x: int, w: nat, inScale: int, outScale: int, p: nat): int
    requires w > 0
  {
    Clamp(CommonScaled(x, w, inScale, outScale), -Pow10(p), Pow10(p))
  }

  /** What the two range-checked paths denote. */
  function CheckedCast(x: int, w: nat, inScale: int, outScale: int, p: nat, cm: CastMode): int
    requires w > 0
  {
    if cm.IsConstToDecimalInt() then ConstCast(x, w, inScale, outScale, p, cm)
    else ExplicitCast(x, w, inScale, outScale, p)
  }

  method CommonScaleDecimalint(decint: Option<seq<byte>>, inScale: int, outScale: int, outPrec: int,
                               cm: CastMode, val: DecimalIntBuilder)
      returns (ret: ObRet)
    requires val.Valid()
    requires cm.constUp || cm.constDown || cm.constEq || cm.columnConvert || cm.explicitCast ==>
               1 <= outPrec <= MAX_POSSIBLE_PRECISION
    modifies val, val.buffer
    ensures val.Valid()
    ensures decint.None? ==> ret == InvalidArgument
    ensures decint.Some? && ValidWidth(|decint.value|) ==> ret == Success
    ensures decint.Some? && !ValidWidth(|decint.value|) && !cm.constUp && !cm.constDown && !cm.constEq ==>
              ret == ErrUnexpected
    ensures decint.Some? && ValidWidth(|decint.value|)
              && (cm.constUp || cm.constDown || cm.constEq || cm.columnConvert || cm.explicitCast) ==>
              && val.intBytes == IntBytesByPrecision(outPrec)
              && val.Value() == CheckedCast(Signed(decint.value), |decint.value|, inScale, outScale, outPrec, cm)
    ensures decint.Some? && ValidWidth(|decint.value|)
              && !(cm.constUp || cm.constDown || cm.constEq || cm.columnConvert || cm.explicitCast) ==>
              && (outPrec > 0 ==>
                    && val.intBytes == IntBytesByPrecision(outPrec)
                    && val.Value()
                       == Wrap(CommonScaled(Signed(decint.value), |decint.value|, inScale, outScale), val.intBytes))
              && (outPrec == -1 ==>
                    && val.intBytes == CommonWidth(Signed(decint.value), |decint.value|, inScale, outScale) > 0
                    && val.Value() == CommonScaled(Signed(decint.value), |decint.value|, inScale, outScale))
              && (outPrec <= 0 && outPrec != -1 ==> val.intBytes == 0)
  {
    hide CommonScaled, ConstCast, Signed, Wrap, Pow10, Half, Range, Fits;
    if decint.None? {
      return InvalidArgument;
    }
    var bytes := decint.value;
    if cm.IsConstToDecimalInt() {
      ret := ScaleConstDecimalintExpr(bytes, inScale, outScale, outPrec, cm, val);
    } else if cm.columnConvert || cm.explicitCast {
      var check := IntBytesByPrecision(outPrec);
      var minV, maxV := Bounds(outPrec);
      var scaled := new DecimalIntBuilder();
      ret := WideInteger.CommonScaleDecimalint(decint, inScale, outScale, scaled, false);
      if !ret.Success? { return; }
      ret := ClampToWidth(scaled, minV, maxV, check, Pow10(outPrec));
      val.FromBuilder(scaled);
    } else {
      var scaled := new DecimalIntBuilder();
      ret := WideInteger.CommonScaleDecimalint(decint, inScale, outScale, scaled, false);
      var expected := IntBytesByPrecision(outPrec);
      if outPrec == PRECISION_UNKNOWN_YET {
        expected := scaled.intBytes;
      }
      if ret.Success? {
        SignedIsWrap(scaled.buffer[..scaled.intBytes]);
        AlignDecintPrecisionUnsafe(scaled.buffer[..scaled.intBytes], expected, val);
      }
    }
  }
}
