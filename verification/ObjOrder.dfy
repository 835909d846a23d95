/** The comparators of ObjCompare, written per pair of type classes, together form one total
    preorder: MIN, then NULL, then every number by its rational value, then MAX. */
module ObjOrder {
  import opened Arithmetic
  import opened TwosComplement
  import opened WideInteger
  import opened DatumCastLaws
  import opened ObjCompare

  /** The objects the order is about: MIN and MAX among the extend values, NULL, every 64-bit integer,
      and every decimal int of a supported width at any scale. */
  predicate Comparable(a: Obj) {
    NoOtherExt(a) && a.WidthOk()
  }

  function Rank(a: Obj): int {
    if a.IsMin() then 0 else if a.Null? then 1 else if a.Ext? then 3 else 2
  }

  /** A number is Mantissa / 10^Scale. */
  function Mantissa(a: Obj): int
    requires a.WidthOk()
  {
    match a
    case Int(i) => i
    case UInt(u) => u
    case DecimalInt(d, _) => Signed(d)
    case _ => 0
  }

  function Scale(a: Obj): int {
    if a.DecimalInt? then a.scale else 0
  }

  /** The sign of m1 / 10^s1 - m2 / 10^s2. */
  function CmpRational(m1: int, s1: int, m2: int, s2: int): int {
    if s1 < s2 then Sign(m1 * Pow10(s2 - s1) - m2)
    else Sign(m1 - m2 * Pow10(s1 - s2))
  }

  /** The intended order. */
  function Order(a: Obj, b: Obj): int
    requires a.WidthOk() && b.WidthOk()
  {
    if Rank(a) == 2 && Rank(b) == 2 then CmpRational(Mantissa(a), Scale(a), Mantissa(b), Scale(b))
    else Sign(Rank(a) - Rank(b))
  }

  // ------------------------------------------------------------------ the code meets the order

  lemma FromIntegerValue(v: int)
    requires -0x8000_0000_0000_0000 <= v < 0x1_0000_0000_0000_0000
    ensures Signed(FromInteger(v)) == v
    ensures InColumn(v, MAX_POSSIBLE_PRECISION)
  {
    var n := |FromInteger(v)|;
    IntegerFits(v);
    SignedFromInt(v, n);
    Pow10Monotone(38, MAX_POSSIBLE_PRECISION);
    PowLiterals();
  }

  lemma IntegerFits(v: int)
    requires -0x8000_0000_0000_0000 <= v < 0x1_0000_0000_0000_0000
    ensures Fits(v, |FromInteger(v)|)
  {
    RangeLiterals();
  }

  /** Bringing the side of smaller scale to the larger scale stays inside int512. */
  predicate ExactScales(m1: int, s1: int, m2: int, s2: int) {
    (s1 < s2 ==> IsInt512(m1 * Pow10(s2 - s1))) && (s1 > s2 ==> IsInt512(m2 * Pow10(s1 - s2)))
  }

  /** The comparison of a and b, if both are numbers, stays inside int512. */
  predicate Exact(a: Obj, b: Obj)
    requires Comparable(a) && Comparable(b)
  {
    Rank(a) == 2 && Rank(b) == 2 ==> ExactScales(Mantissa(a), Scale(a), Mantissa(b), Scale(b))
  }

  /** Without overflow the decimal comparator computes the rational order. */
  lemma CmpDecimalExact(d1: seq<byte>, s1: int, d2: seq<byte>, s2: int)
    requires ValidWidth(|d1|) && ValidWidth(|d2|)
    requires ExactScales(Signed(d1), s1, Signed(d2), s2)
    ensures CmpDecimal(d1, s1, d2, s2) == CmpRational(Signed(d1), s1, Signed(d2), s2)
  {
    hide Pow10, IsInt512, Signed, Wrap512;
    if s1 < s2 {
      Wrap512Facts(Signed(d1) * Pow10(s2 - s1));
    } else if s1 > s2 {
      Wrap512Facts(Signed(d2) * Pow10(s1 - s2));
    } else {
      EqualScales(Signed(d2));
    }
  }

  lemma EqualScales(m: int)
    ensures m * Pow10(0) == m
  {
  }

  /** Exactly when the decimal comparator computes the rational order against every decimal of the
      larger scale, from either side: when the scaled-up operand does not overflow int512. */
  lemma CmpDecimalIff(d: seq<byte>, small: int, large: int)
    requires ValidWidth(|d|) && small < large
    ensures (forall e: seq<byte> | ValidWidth(|e|) ::
               CmpDecimal(d, small, e, large) == CmpRational(Signed(d), small, Signed(e), large))
       <==> IsInt512(Signed(d) * Pow10(large - small))
    ensures (forall e: seq<byte> | ValidWidth(|e|) ::
               CmpDecimal(e, large, d, small) == CmpRational(Signed(e), large, Signed(d), small))
       <==> IsInt512(Signed(d) * Pow10(large - small))
  {
    hide Pow10, IsInt512, Signed, Wrap512;
    var v := Signed(d) * Pow10(large - small);
    Wrap512Facts(v);
    if !IsInt512(v) {
      var e := Int512Bytes(Wrap512(v));
      assert CmpDecimal(d, small, e, large) == 0 == CmpDecimal(e, large, d, small);
      assert CmpRational(Signed(d), small, Signed(e), large) == Sign(v - Wrap512(v));
      assert CmpRational(Signed(e), large, Signed(d), small) == Sign(Wrap512(v) - v);
    }
  }

  lemma Int512Bytes(v: int) returns (d: seq<byte>)
    requires IsInt512(v)
    ensures ValidWidth(|d|) && Signed(d) == v
  {
    d := FromInt(v, 64);
    SignedFromInt(v, 64);
  }

  /** CompareNullsafe is the intended order, across all its separately written cases. */
  lemma CompareIsOrder(a: Obj, b: Obj)
    requires Comparable(a) && Comparable(b) && Exact(a, b)
    ensures CompareNullsafe(a, b) == Order(a, b)
  {
    hide Pow10, CmpDecimal, Signed, FromInteger, ValidWidth, IsInt512;
    if Rank(a) == 2 && Rank(b) == 2 {
      EqualScales(Mantissa(b));
      if a.DecimalInt? && b.DecimalInt? {
        CmpDecimalExact(a.decint, a.scale, b.decint, b.scale);
      } else if a.DecimalInt? {
        FromIntegerValue(Mantissa(b));
        CmpDecimalExact(a.decint, a.scale, FromInteger(Mantissa(b)), 0);
      } else if b.DecimalInt? {
        FromIntegerValue(Mantissa(a));
        CmpDecimalExact(b.decint, b.scale, FromInteger(Mantissa(a)), 0);
        CmpRationalSwap(Mantissa(a), 0, Mantissa(b), b.scale);
      }
    }
  }

  lemma CmpRationalSwap(m1: int, s1: int, m2: int, s2: int)
    ensures CmpRational(m1, s1, m2, s2) == -CmpRational(m2, s2, m1, s1)
  {
    if s1 == s2 {
      EqualScales(m1);
      EqualScales(m2);
    }
  }

  // ------------------------------------------------------------------ the order is a total preorder

  /** The number in units of 10^-top. */
  function Key(a: Obj, top: int): int
    requires Comparable(a) && Scale(a) <= top
  {
    Mantissa(a) * Pow10(top - Scale(a))
  }

  lemma OrderByKey(a: Obj, b: Obj, top: int)
    requires Comparable(a) && Comparable(b) && Scale(a) <= top && Scale(b) <= top
    ensures Order(a, b) == if Rank(a) == 2 && Rank(b) == 2 then Sign(Key(a, top) - Key(b, top))
                           else Sign(Rank(a) - Rank(b))
  {
    hide Pow10, ValidWidth, Mantissa, Sign;
    var (m1, s1) := (Mantissa(a), Scale(a));
    var (m2, s2) := (Mantissa(b), Scale(b));
    if s1 < s2 {
      SignScaled(m1, m2, s2 - s1, top - s2);
    } else {
      SignScaled(m2, m1, s1 - s2, top - s1);
      SignNegated(m2 * Pow10(s1 - s2) - m1);
      SignNegated(m2 * Pow10(top - s2) - m1 * Pow10(top - s1));
    }
  }

  lemma SignNegated(x: int)
    ensures Sign(-x) == -Sign(x)
  {
  }

  /** Multiplying both sides by a power of ten keeps the sign of their difference. */
  lemma SignScaled(m1: int, m2: int, d: nat, e: nat)
    ensures Sign(m1 * Pow10(d) - m2) == Sign(m1 * Pow10(d + e) - m2 * Pow10(e))
  {
    hide Pow10;
    Pow10Add(d, e);
    var x := m1 * Pow10(d);
    MulAssociative(m1, Pow10(d), Pow10(e));
    assert x * Pow10(e) == m1 * Pow10(d + e);
    MulStrictlyMonotone(Pow10(e), x, m2);
    MulStrictlyMonotone(Pow10(e), m2, x);
  }

  /** Antisymmetry holds beyond int512 too, where both calls wrap alike. */
  lemma CompareAntisymmetric(a: Obj, b: Obj)
    requires Comparable(a) && Comparable(b)
    ensures CompareNullsafe(a, b) == -CompareNullsafe(b, a)
    ensures CompareNullsafe(a, a) == 0
  {
    hide ScaledUp, Signed, FromInteger, ValidWidth;
  }

  lemma ExactSymmetric(a: Obj, b: Obj)
    requires Comparable(a) && Comparable(b)
    ensures Exact(a, b) <==> Exact(b, a)
    ensures Exact(a, a)
  {
  }

  /** For any three objects whose comparisons with each other stay inside int512, comparison is total,
      reflexive and antisymmetric; it is transitive, and strict as soon as one step is. */
  lemma CompareExactPreorder(a: Obj, b: Obj, c: Obj)
    requires Comparable(a) && Comparable(b) && Comparable(c)
    requires Exact(a, b) && Exact(b, c) && Exact(a, c)
    ensures -1 <= CompareNullsafe(a, b) <= 1
    ensures CompareNullsafe(a, a) == 0
    ensures CompareNullsafe(a, b) == -CompareNullsafe(b, a)
    ensures CompareNullsafe(a, b) <= 0 && CompareNullsafe(b, c) <= 0 ==>
              && CompareNullsafe(a, c) <= 0
              && (CompareNullsafe(a, c) == 0 <==> CompareNullsafe(a, b) == 0 && CompareNullsafe(b, c) == 0)
  {
    hide CompareNullsafe, Order, Comparable, Exact, Key, Scale;
    var top := if Scale(a) >= Scale(b) && Scale(a) >= Scale(c) then Scale(a)
               else if Scale(b) >= Scale(c) then Scale(b) else Scale(c);
    ExactSymmetric(a, b);
    CompareIsOrder(a, b);
    CompareIsOrder(b, a);
    CompareIsOrder(b, c);
    CompareIsOrder(a, c);
    CompareIsOrder(a, a);
    OrderByKey(a, b, top);
    OrderByKey(b, a, top);
    OrderByKey(b, c, top);
    OrderByKey(a, c, top);
    OrderByKey(a, a, top);
  }

  /** MIN < NULL < every number < MAX. */
  lemma CompareLayers(a: Obj, b: Obj)
    requires Comparable(a) && Comparable(b) && Rank(a) < Rank(b)
    ensures CompareNullsafe(a, b) == CR_LT && CompareNullsafe(b, a) == CR_GT
  {
    CompareIsOrder(a, b);
    CompareIsOrder(b, a);
  }

  /** MIN is below every other object and MAX above. */
  lemma ExtremesCompare(b: Obj)
    requires Comparable(b)
    ensures b != Ext(MinValue) ==> CompareNullsafe(Ext(MinValue), b) == -1 && CompareNullsafe(b, Ext(MinValue)) == 1
    ensures b != Ext(MaxValue) ==> CompareNullsafe(Ext(MaxValue), b) == 1 && CompareNullsafe(b, Ext(MaxValue)) == -1
  {
    hide ScaledUp, Signed, FromInteger, ValidWidth;
  }

  // ------------------------------------------------------------------ objects all comparable exactly

  /** The largest difference of scales that no decimal of 81 digits overflows. */
  const SCALE_SPREAD: int := 72

  /** Decimals of at most 81 digits whose scales differ by at most 72 compare exactly, and so do integers
      with decimals of a scale from -72 to 72. */
  lemma DeclaredExact(a: Obj, b: Obj)
    requires Comparable(a) && Comparable(b)
    requires InColumn(Mantissa(a), MAX_POSSIBLE_PRECISION) && InColumn(Mantissa(b), MAX_POSSIBLE_PRECISION)
    requires -SCALE_SPREAD <= Scale(a) - Scale(b) <= SCALE_SPREAD
    ensures Exact(a, b)
  {
    hide Pow10, InColumn, IsInt512, Mantissa, ValidWidth;
    if Scale(a) < Scale(b) {
      ProductBound(Mantissa(a), MAX_POSSIBLE_PRECISION, Scale(b) - Scale(a));
    } else if Scale(a) > Scale(b) {
      ProductBound(Mantissa(b), MAX_POSSIBLE_PRECISION, Scale(a) - Scale(b));
    }
  }

  /** Objects any two of which compare exactly: decimals of at most 81 digits with a scale of 0 to 72. */
  predicate Ordered(a: Obj) {
    && Comparable(a)
    && (a.DecimalInt? ==> InColumn(Signed(a.decint), MAX_POSSIBLE_PRECISION) && 0 <= a.scale <= SCALE_SPREAD)
  }

  lemma OrderedExact(a: Obj, b: Obj)
    requires Ordered(a) && Ordered(b)
    ensures Exact(a, b)
  {
    hide Pow10, InColumn, IsInt512, Signed, ValidWidth;
    OrderedMantissa(a);
    OrderedMantissa(b);
    DeclaredExact(a, b);
  }

  lemma OrderedMantissa(a: Obj)
    requires Ordered(a)
    ensures InColumn(Mantissa(a), MAX_POSSIBLE_PRECISION)
  {
    hide Pow10;
    if !a.DecimalInt? {
      FromIntegerValue(Mantissa(a));
    }
  }

  /** On such objects comparison is a total preorder without further conditions. */
  lemma CompareTotalPreorder(a: Obj, b: Obj, c: Obj)
    requires Ordered(a) && Ordered(b) && Ordered(c)
    ensures -1 <= CompareNullsafe(a, b) <= 1
    ensures CompareNullsafe(a, a) == 0
    ensures CompareNullsafe(a, b) == -CompareNullsafe(b, a)
    ensures CompareNullsafe(a, b) <= 0 && CompareNullsafe(b, c) <= 0 ==>
              && CompareNullsafe(a, c) <= 0
              && (CompareNullsafe(a, c) == 0 <==> CompareNullsafe(a, b) == 0 && CompareNullsafe(b, c) == 0)
  {
    hide CompareNullsafe, Exact, InColumn, ValidWidth;
    OrderedExact(a, b);
    OrderedExact(b, c);
    OrderedExact(a, c);
    CompareExactPreorder(a, b, c);
  }

}
