/** ObObjCmpFuncs: comparison of objects of mixed type classes, dispatched over a table of
    separately written comparators. Modelled for NULL, the extend values, signed and unsigned
    integers and decimal ints. */
module ObjCompare {
  import opened Arithmetic
  import opened TwosComplement
  import opened DecimalIntBuilders
  import opened WideInteger
  import opened Errors

  type int64 = v: int | -0x8000_0000_0000_0000 <= v < 0x8000_0000_0000_0000
  type uint64 = v: int | 0 <= v < 0x1_0000_0000_0000_0000

  datatype ExtValue = MinValue | MaxValue | OtherExt(code: int64)

  datatype Obj =
    | Null
    | Ext(ext: ExtValue)
    | Int(i: int64)
    | UInt(u: uint64)
    | DecimalInt(decint: seq<byte>, scale: int)
  {
    predicate IsMin() { Ext? && ext.MinValue? }
    predicate IsMax() { Ext? && ext.MaxValue? }
    predicate IsInteger() { Int? || UInt? }
    /** Decimal ints have one of the supported widths. */
    predicate WidthOk() { DecimalInt? ==> ValidWidth(|decint|) }
  }

  datatype CmpOp = EQ | LE | LT | GE | GT | NE

  const CR_LT := -1
  const CR_EQ := 0
  const CR_GT := 1
  const CR_NULL := 2
  const CR_ERROR := 3

  /** left op_str right. */
  predicate Test(left: int, op: CmpOp, right: int) {
    match op
    case EQ => left == right
    case LE => left <= right
    case LT => left < right
    case GE => left >= right
    case GT => left > right
    case NE => left != right
  }

  /** The operator that gives the same answer with the operands swapped. */
  function Symmetric(op: CmpOp): CmpOp {
    match op
    case EQ => EQ
    case LE => GE
    case LT => GT
    case GE => LE
    case GT => LT
    case NE => NE
  }

  function Truth(b: bool): int {
    if b then 1 else 0
  }

  // ------------------------------------------------------------------ three-way comparators

  function CmpExtExt(a: Obj, b: Obj): int {
    if (a.IsMin() && b.IsMin()) || (a.IsMax() && b.IsMax()) then CR_EQ
    else if a.IsMin() || b.IsMax() then CR_LT
    else if a.IsMax() || b.IsMin() then CR_GT
    else CR_ERROR
  }

  function CmpNullExt(b: Obj, nullSafe: bool): int {
    if !nullSafe then CR_NULL
    else if b.IsMin() then CR_GT
    else if b.IsMax() then CR_LT
    else CR_ERROR
  }

  function CmpExtNull(a: Obj, nullSafe: bool): int {
    if !nullSafe then CR_NULL
    else if a.IsMin() then CR_LT
    else if a.IsMax() then CR_GT
    else CR_ERROR
  }

  function CmpValueExt(b: Obj): int {
    if b.IsMin() then CR_GT else if b.IsMax() then CR_LT else CR_ERROR
  }

  function CmpExtValue(a: Obj): int {
    if a.IsMin() then CR_LT else if a.IsMax() then CR_GT else CR_ERROR
  }

  function CmpSame(x: int, y: int): int {
    if x < y then CR_LT else if x > y then CR_GT else CR_EQ
  }

  function CmpIntUInt(i: int64, u: uint64): int {
    if i < 0 || i < u then CR_LT else if i > u then CR_GT else CR_EQ
  }

  /** wide::from_integer: a signed integer, or an unsigned one within the signed range, takes eight
      bytes; a larger one takes sixteen. */
  function FromInteger(v: int): (bs: seq<byte>)
    ensures ValidWidth(|bs|)
  {
    if v <= 0x7FFF_FFFF_FFFF_FFFF then FromInt(v, 8) else FromInt(v, 16)
  }

  /** The sign the decimal comparators compute: the side with the smaller scale is scaled up. */
  function CmpDecimal(d1: seq<byte>, s1: int, d2: seq<byte>, s2: int): int
    requires ValidWidth(|d1|) && ValidWidth(|d2|)
  {
    if s1 < s2 then Sign(ScaledUp(Signed(d1), s2 - s1) - Signed(d2))
    else if s1 > s2 then Sign(Signed(d1) - ScaledUp(Signed(d2), s1 - s2))
    else Sign(Signed(d1) - Signed(d2))
  }

  /** cmp_op_func<ObDecimalIntTC, ObDecimalIntTC, CO_CMP>. */
  method CompareDecimals(d1: seq<byte>, s1: int, d2: seq<byte>, s2: int) returns (cmp: int)
    ensures ValidWidth(|d1|) && ValidWidth(|d2|) ==> cmp == CmpDecimal(d1, s1, d2, s2)
  {
    hide ScaledUp, Signed, Half, Range;
    var ret := Success;
    var res := 0;
    cmp := 0;
    WidthInBuffer(d1);
    WidthInBuffer(d2);
    var lhVal := new DecimalIntBuilder();
    var rhVal := new DecimalIntBuilder();
    if s1 < s2 {
      ret := CommonScaleDecimalint(Some(d1), s1, s2, lhVal, false);
      if ret.Success? {
        rhVal.FromBytes(d2);
      }
    } else if s1 > s2 {
      ret := CommonScaleDecimalint(Some(d2), s2, s1, rhVal, false);
      if ret.Success? {
        lhVal.FromBytes(d1);
      }
    } else {
      lhVal.FromBytes(d1);
      rhVal.FromBytes(d2);
    }
    if ret.Success? {
      ret, res := WideInteger.Compare(lhVal, rhVal);
      if ret.Success? {
        cmp := res;
      }
    }
  }

  lemma WidthInBuffer(d: seq<byte>)
    ensures ValidWidth(|d|) ==> d[..Min(BUFFER_SIZE, |d|)] == d
  {
  }

  /** compare with a context: cmp_funcs[tc1][tc2][CO_CMP]. */
  function Cmp(a: Obj, b: Obj, nullSafe: bool): int
    requires a.WidthOk() && b.WidthOk()
  {
    match (a, b)
    case (Null, Null) => if nullSafe then CR_EQ else CR_NULL
    case (Null, Ext(_)) => CmpNullExt(b, nullSafe)
    case (Null, _) => if nullSafe then CR_LT else CR_NULL
    case (Ext(_), Null) => CmpExtNull(a, nullSafe)
    case (Ext(_), Ext(_)) => CmpExtExt(a, b)
    case (Ext(_), _) => CmpExtValue(a)
    case (_, Null) => if nullSafe then CR_GT else CR_NULL
    case (_, Ext(_)) => CmpValueExt(b)
    case (Int(i), Int(j)) => CmpSame(i, j)
    case (Int(i), UInt(u)) => CmpIntUInt(i, u)
    case (UInt(u), Int(i)) => -CmpIntUInt(i, u)
    case (UInt(u), UInt(v)) => CmpSame(u, v)
    case (DecimalInt(d1, s1), DecimalInt(d2, s2)) => CmpDecimal(d1, s1, d2, s2)
    case (DecimalInt(d, s), Int(i)) => CmpDecimal(d, s, FromInteger(i), 0)
    case (DecimalInt(d, s), UInt(u)) => CmpDecimal(d, s, FromInteger(u), 0)
    case (Int(i), DecimalInt(d, s)) => -CmpDecimal(d, s, FromInteger(i), 0)
    case (UInt(u), DecimalInt(d, s)) => -CmpDecimal(d, s, FromInteger(u), 0)
  }

  function CompareNullsafe(a: Obj, b: Obj): int
    requires a.WidthOk() && b.WidthOk()
  {
    Cmp(a, b, true)
  }

  // ------------------------------------------------------------------ boolean comparators

  function OpNullExt(b: Obj, op: CmpOp, nullSafe: bool): int {
    if !nullSafe then CR_NULL
    else if b.IsMin() then Truth(Test(0, op, -1))
    else if b.IsMax() then Truth(Test(0, op, 1))
    else CR_ERROR
  }

  function OpExtExt(a: Obj, b: Obj, op: CmpOp): int
    requires a.Ext? && b.Ext?
  {
    if op.EQ? then Truth(a.ext == b.ext)
    else if op.NE? then Truth(a.ext != b.ext)
    else if (a.IsMin() && b.IsMin()) || (a.IsMax() && b.IsMax()) then Truth(Test(0, op, 0))
    else if a.IsMin() || b.IsMax() then Truth(Test(-1, op, 1))
    else if a.IsMax() || b.IsMin() then Truth(Test(1, op, -1))
    else CR_ERROR
  }

  function OpValueExt(b: Obj, op: CmpOp): int {
    if b.IsMin() then Truth(Test(0, op, -1))
    else if b.IsMax() then Truth(Test(0, op, 1))
    else CR_ERROR
  }

  function OpIntUInt(i: int64, u: uint64, op: CmpOp): int {
    if i < 0 then Truth(Test(i, op, 0)) else Truth(Test(i, op, u))
  }

  /** cmp_funcs[tc1][tc2][op] for the boolean operators. With an integer on the left and a decimal
      on the right the code negates the swapped call but keeps the operator. */
  function Op(a: Obj, b: Obj, op: CmpOp, nullSafe: bool): int
    requires a.WidthOk() && b.WidthOk()
  {
    match (a, b)
    case (Null, Null) => if nullSafe then Truth(Test(0, op, 0)) else CR_NULL
    case (Null, Ext(_)) => OpNullExt(b, op, nullSafe)
    case (Null, _) => if nullSafe then Truth(Test(0, op, 1)) else CR_NULL
    case (Ext(_), Null) => OpNullExt(a, Symmetric(op), nullSafe)
    case (Ext(_), Ext(_)) => OpExtExt(a, b, op)
    case (Ext(_), _) => OpValueExt(a, Symmetric(op))
    case (_, Null) => if nullSafe then Truth(Test(0, Symmetric(op), 1)) else CR_NULL
    case (_, Ext(_)) => OpValueExt(b, op)
    case (Int(i), Int(j)) => Truth(Test(i, op, j))
    case (Int(i), UInt(u)) => OpIntUInt(i, u, op)
    case (UInt(u), Int(i)) => OpIntUInt(i, u, Symmetric(op))
    case (UInt(u), UInt(v)) => Truth(Test(u, op, v))
    case (DecimalInt(d1, s1), DecimalInt(d2, s2)) => Truth(Test(CmpDecimal(d1, s1, d2, s2), op, 0))
    case (DecimalInt(d, s), Int(i)) => Truth(Test(CmpDecimal(d, s, FromInteger(i), 0), op, 0))
    case (DecimalInt(d, s), UInt(u)) => Truth(Test(CmpDecimal(d, s, FromInteger(u), 0), op, 0))
    case (Int(i), DecimalInt(d, s)) => -Truth(Test(CmpDecimal(d, s, FromInteger(i), 0), op, 0))
    case (UInt(u), DecimalInt(d, s)) => -Truth(Test(CmpDecimal(d, s, FromInteger(u), 0), op, 0))
  }

  /** Any nonzero code reads as true, an error included. */
  predicate CompareOperNullsafe(a: Obj, b: Obj, op: CmpOp)
    requires a.WidthOk() && b.WidthOk()
  {
    Op(a, b, op, true) != 0
  }

  // ------------------------------------------------------------------ operators agree with three-way

  /** An integer on the left, a decimal int on the right. */
  predicate IntegerDecimal(a: Obj, b: Obj) {
    a.IsInteger() && b.DecimalInt?
  }

  predicate NoOtherExt(a: Obj) {
    a.Ext? ==> a.ext.MinValue? || a.ext.MaxValue?
  }

  /** Every boolean comparator is the three-way result tested against zero, NULL included, for all
      pairs but integer-against-decimal. */
  lemma OpAgrees(a: Obj, b: Obj, op: CmpOp, nullSafe: bool)
    requires a.WidthOk() && b.WidthOk() && NoOtherExt(a) && NoOtherExt(b)
    requires !IntegerDecimal(a, b)
    ensures var c := Cmp(a, b, nullSafe);
            Op(a, b, op, nullSafe) == if c == CR_NULL then CR_NULL else Truth(Test(c, op, 0))
  {
    hide ScaledUp, Signed, FromInteger, ValidWidth;
  }

  /** What the answers say: 2 for NULL, otherwise 1 or 0 as the three-way result meets the operator. */
  lemma OpMeans(a: Obj, b: Obj, nullSafe: bool)
    requires a.WidthOk() && b.WidthOk() && NoOtherExt(a) && NoOtherExt(b)
    requires !IntegerDecimal(a, b)
    ensures var c := Cmp(a, b, nullSafe);
            && (c == 2 <==> !nullSafe && (a.Null? || b.Null?))
            && (c == 2 ==> forall op :: Op(a, b, op, nullSafe) == 2)
            && (c != 2 ==>
                  && Op(a, b, EQ, nullSafe) == (if c == 0 then 1 else 0)
                  && Op(a, b, NE, nullSafe) == (if c != 0 then 1 else 0)
                  && Op(a, b, LT, nullSafe) == (if c < 0 then 1 else 0)
                  && Op(a, b, LE, nullSafe) == (if c <= 0 then 1 else 0)
                  && Op(a, b, GT, nullSafe) == (if c > 0 then 1 else 0)
                  && Op(a, b, GE, nullSafe) == (if c >= 0 then 1 else 0))
  {
    hide ScaledUp, Signed, FromInteger, ValidWidth, Op;
    forall op ensures Op(a, b, op, nullSafe) == (var c := Cmp(a, b, nullSafe);
                                                 if c == CR_NULL then CR_NULL else Truth(Test(c, op, 0))) {
      OpAgrees(a, b, op, nullSafe);
    }
  }

  /** The six questions asked null-safely, which is how objects are sorted. */
  lemma OperNullsafeMeans(a: Obj, b: Obj)
    requires a.WidthOk() && b.WidthOk() && NoOtherExt(a) && NoOtherExt(b)
    requires !IntegerDecimal(a, b)
    ensures CompareOperNullsafe(a, b, EQ) <==> CompareNullsafe(a, b) == 0
    ensures CompareOperNullsafe(a, b, NE) <==> CompareNullsafe(a, b) != 0
    ensures CompareOperNullsafe(a, b, LT) <==> CompareNullsafe(a, b) < 0
    ensures CompareOperNullsafe(a, b, LE) <==> CompareNullsafe(a, b) <= 0
    ensures CompareOperNullsafe(a, b, GT) <==> CompareNullsafe(a, b) > 0
    ensures CompareOperNullsafe(a, b, GE) <==> CompareNullsafe(a, b) >= 0
  {
    hide Cmp, Op;
    OpMeans(a, b, true);
  }

  /** Extend values other than MIN and MAX stand between the two and are equal to themselves, and every
      other question about them is an error, in both argument orders and whatever the operator. */
  lemma OtherExtCompare(a: Obj, b: Obj, nullSafe: bool)
    requires a.Ext? && a.ext.OtherExt? && b.WidthOk()
    ensures b == Ext(MinValue) ==> Cmp(a, b, nullSafe) == 1 && Cmp(b, a, nullSafe) == -1
    ensures b == Ext(MaxValue) ==> Cmp(a, b, nullSafe) == -1 && Cmp(b, a, nullSafe) == 1
    ensures b.Null? && !nullSafe ==> Cmp(a, b, nullSafe) == Cmp(b, a, nullSafe) == 2
    ensures b != Ext(MinValue) && b != Ext(MaxValue) && (b.Null? ==> nullSafe) ==>
              Cmp(a, b, nullSafe) == Cmp(b, a, nullSafe) == 3
    ensures b.Ext? ==>
              && Op(a, b, EQ, nullSafe) == Op(b, a, EQ, nullSafe) == (if a == b then 1 else 0)
              && Op(a, b, NE, nullSafe) == Op(b, a, NE, nullSafe) == (if a == b then 0 else 1)
    ensures forall op: CmpOp | !(b.Ext? && (op.EQ? || op.NE?)) && b != Ext(MinValue) && b != Ext(MaxValue)
                        && (b.Null? ==> nullSafe) ::
              Op(a, b, op, nullSafe) == Op(b, a, op, nullSafe) == 3
  {
  }

  /** Integer against decimal: the code answers the question with its operands exchanged, and -1
      instead of 1 for true. It is right exactly for = and <>, and whenever the operands are equal. */
  lemma IntegerDecimalOpIff(a: Obj, b: Obj, op: CmpOp)
    requires b.WidthOk() && IntegerDecimal(a, b)
    ensures Op(a, b, op, true) == -Op(b, a, op, true)
    ensures (CompareOperNullsafe(a, b, op) <==> Test(CompareNullsafe(a, b), op, 0))
       <==> op.EQ? || op.NE? || CompareNullsafe(a, b) == CR_EQ
  {
  }

  /** 1 < 2.0 is answered false. */
  lemma IntegerDecimalLessWrong()
    ensures var two := DecimalInt(FromInt(2, 4), 0);
            && CompareNullsafe(Int(1), two) == CR_LT
            && !CompareOperNullsafe(Int(1), two, LT)
  {
    assert Fits(2, 4) && Fits(1, 8) by {
      assert Half(4) > 2;
      HalfMonotone(4, 8);
    }
    SignedFromInt(2, 4);
    SignedFromInt(1, 8);
  }

  /** The operator forms that swap their operands agree with the unswapped question. */
  lemma SymmetricOpAgrees(a: Obj, b: Obj, op: CmpOp, nullSafe: bool)
    requires a.WidthOk() && b.WidthOk() && NoOtherExt(a) && NoOtherExt(b)
    requires !IntegerDecimal(a, b) && !IntegerDecimal(b, a)
    ensures Op(a, b, op, nullSafe) == Op(b, a, Symmetric(op), nullSafe)
  {
    hide ScaledUp, Signed;
  }
}
