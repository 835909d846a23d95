/** Integer casts of ob_obj_cast: saturating range checks between the ten integer types, and the
    number of decimal digits of an integer. */
module ObjCast {
  import opened Arithmetic
  import opened Errors
  import opened ObjCompare
  import opened TwosComplement

  // ------------------------------------------------------------------ integer types

  datatype IntType =
    | TinyInt | SmallInt | MediumInt | Int32 | BigInt
    | UTinyInt | USmallInt | UMediumInt | UInt32 | UBigInt
  {
    predicate IsSigned() {
      TinyInt? || SmallInt? || MediumInt? || Int32? || BigInt?
    }

    /** The position of the type in ObObjType. */
    function Ordinal(): int {
      match this
      case TinyInt => 1
      case SmallInt => 2
      case MediumInt => 3
      case Int32 => 4
      case BigInt => 5
      case UTinyInt => 6
      case USmallInt => 7
      case UMediumInt => 8
      case UInt32 => 9
      case UBigInt => 10
    }
  }

  /** INT_MIN_VAL, and 0 for the unsigned types. */
  function MinVal(t: IntType): int64 {
    match t
    case TinyInt => -128
    case SmallInt => -32768
    case MediumInt => -8388608
    case Int32 => -2147483648
    case BigInt => -0x8000_0000_0000_0000
    case _ => 0
  }

  /** INT_MAX_VAL and UINT_MAX_VAL. */
  function MaxVal(t: IntType): uint64 {
    match t
    case TinyInt => 127
    case SmallInt => 32767
    case MediumInt => 8388607
    case Int32 => 2147483647
    case BigInt => 0x7FFF_FFFF_FFFF_FFFF
    case UTinyInt => 255
    case USmallInt => 65535
    case UMediumInt => 16777215
    case UInt32 => 4294967295
    case UBigInt => 0xFFFF_FFFF_FFFF_FFFF
  }

  /** The bytes a value of the type takes. */
  function ByteWidth(t: IntType): nat {
    match t
    case TinyInt => 1
    case UTinyInt => 1
    case SmallInt => 2
    case USmallInt => 2
    case MediumInt => 3
    case UMediumInt => 3
    case Int32 => 4
    case UInt32 => 4
    case _ => 8
  }

  /** The limits are those of two's complement and of unsigned numbers of that many bytes. */
  lemma LimitsAreWidths(t: IntType)
    ensures t in {TinyInt, SmallInt, MediumInt, Int32, BigInt} ==>
              MinVal(t) == -Half(ByteWidth(t)) && MaxVal(t) == Half(ByteWidth(t)) - 1
    ensures t in {UTinyInt, USmallInt, UMediumInt, UInt32, UBigInt} ==>
              MinVal(t) == 0 && MaxVal(t) == Range(ByteWidth(t)) - 1
  {
    assert Range(0) == 1 && Range(1) == 0x100 && Range(2) == 0x1_0000 && Range(3) == 0x100_0000;
    assert Range(4) == 0x1_0000_0000 && Range(7) == 0x100_0000_0000_0000;
  }

  predicate InType(v: int, t: IntType) {
    MinVal(t) <= v <= MaxVal(t)
  }

  /** The value of type t nearest to v. */
  function Saturate(v: int, t: IntType): (r: int)
    ensures InType(r, t)
  {
    if v < MinVal(t) then MinVal(t) else if v > MaxVal(t) then MaxVal(t) else v
  }

  /** The cast-mode bits the integer casts test. */
  datatype IntCastMode = IntCastMode(warnOnFail: bool, needRangeCheck: bool,
                                     noCastIntUInt: bool, externalCall: bool)

  /** The mode in which every integer cast saturates. */
  predicate Saturating(cm: IntCastMode) {
    cm.warnOnFail && cm.needRangeCheck && !cm.noCastIntUInt
  }

  // ------------------------------------------------------------------ 64-bit conversions

  function ToUInt64(v: int64): uint64 {
    if v < 0 then v + 0x1_0000_0000_0000_0000 else v
  }

  function ToInt64(v: uint64): int64 {
    if v >= 0x8000_0000_0000_0000 then v - 0x1_0000_0000_0000_0000 else v
  }

  /** Both keep the 64 bits. */
  lemma ConversionsKeepBits(v: int64, u: uint64)
    ensures ToUInt64(v) == v % 0x1_0000_0000_0000_0000
    ensures ToInt64(u) == Wrap(u, 8)
  {
    assert Range(7) == 0x100_0000_0000_0000;
    assert Range(8) == 0x1_0000_0000_0000_0000;
  }

  // ------------------------------------------------------------------ range checks

  /** numeric_range_check on int64 values. */
  method NumericRangeCheck(inVal: int64, lo: int64, hi: int64, outVal: int64) returns (ret: ObRet, out: int64)
    ensures inVal < lo ==> ret == DataOutOfRange && out == lo
    ensures lo <= inVal && inVal > hi ==> ret == DataOutOfRange && out == hi
    ensures lo <= inVal <= hi ==> ret == Success && out == outVal
  {
    ret, out := Success, outVal;
    if inVal < lo {
      ret := DataOutOfRange;
      out := lo;
    } else if inVal > hi {
      ret := DataOutOfRange;
      out := hi;
    }
  }

  /** The int64-to-uint64 specialization, which compares the converted value with the upper limit. */
  method NumericRangeCheckUInt(inVal: int64, hi: uint64, outVal: uint64) returns (ret: ObRet, out: uint64)
    requires outVal == ToUInt64(inVal)
    ensures inVal < 0 ==> ret == DataOutOfRange && out == 0
    ensures inVal > hi ==> ret == DataOutOfRange && out == hi
    ensures 0 <= inVal <= hi ==> ret == Success && out == inVal
  {
    ret, out := Success, outVal;
    if inVal < 0 {
      ret := DataOutOfRange;
      out := 0;
    } else if out > hi {
      ret := DataOutOfRange;
      out := hi;
    }
  }

  /** numeric_upper_check on uint64 inputs. */
  method NumericUpperCheck(inVal: uint64, hi: uint64, outVal: int) returns (ret: ObRet, out: int)
    ensures inVal > hi ==> ret == DataOutOfRange && out == hi
    ensures inVal <= hi ==> ret == Success && out == outVal
  {
    ret, out := Success, outVal;
    if inVal > hi {
      ret := DataOutOfRange;
      out := hi;
    }
  }

  /** get_cast_ret: in warn mode a failure becomes a warning. */
  method GetCastRet(cm: IntCastMode, failure: ObRet, warning: ObRet) returns (ret: ObRet, warning': ObRet)
    ensures failure == Success || !cm.warnOnFail ==> ret == failure && warning' == warning
    ensures failure != Success && cm.warnOnFail ==> ret == Success && warning' == failure
  {
    ret, warning' := failure, warning;
    if failure != Success && cm.warnOnFail {
      warning' := failure;
      ret := Success;
    }
  }

  // ------------------------------------------------------------------ the four casts

  /** The result of a cast: the stored bits read in the class of the result type. */
  datatype CastResult = NotSet | Set(ty: IntType, value: int)

  method IntInt(target: IntType, inType: IntType, inVal: int64, cm: IntCastMode, warning: ObRet)
      returns (ret: ObRet, warning': ObRet, out: CastResult)
    ensures !inType.IsSigned() || !target.IsSigned() ==> ret == ErrUnexpected && out.NotSet?
    ensures inType.IsSigned() && target.IsSigned() && InType(inVal, inType) ==>
              CastMeaning(inVal, target, cm.warnOnFail, warning, ret, warning', out)
  {
    out, warning' := NotSet, warning;
    if !inType.IsSigned() || !target.IsSigned() {
      ret := ErrUnexpected;
    } else {
      var value := inVal;
      ret := Success;
      if inType.Ordinal() > target.Ordinal() {
        var checked;
        checked, value := NumericRangeCheck(inVal, MinVal(target), MaxVal(target), value);
        ret, warning' := GetCastRet(cm, checked, warning);
      }
      if ret.Success? {
        out := Set(target, value);
      }
    }
  }

  method IntUInt(target: IntType, inType: IntType, inVal: int64, cm: IntCastMode, warning: ObRet)
      returns (ret: ObRet, warning': ObRet, out: CastResult)
    ensures !inType.IsSigned() || target.IsSigned() ==> ret == ErrUnexpected && out.NotSet?
    ensures inType.IsSigned() && !target.IsSigned() && cm.noCastIntUInt ==>
              ret == Success && out == Set(inType, inVal)
    ensures inType.IsSigned() && !target.IsSigned() && !cm.noCastIntUInt && cm.needRangeCheck ==>
              CastMeaning(inVal, target, cm.warnOnFail, warning, ret, warning', out)
    ensures inType.IsSigned() && !target.IsSigned() && !cm.noCastIntUInt && !cm.needRangeCheck ==>
              ret == Success && out == Set(target, ToUInt64(inVal))
  {
    out, warning' := NotSet, warning;
    if !inType.IsSigned() || target.IsSigned() {
      ret := ErrUnexpected;
    } else if cm.noCastIntUInt {
      ret := Success;
      out := Set(inType, inVal);
    } else {
      var value := ToUInt64(inVal);
      ret := Success;
      if cm.needRangeCheck {
        var checked;
        checked, value := NumericRangeCheckUInt(inVal, MaxVal(target), value);
        ret, warning' := GetCastRet(cm, checked, warning);
      }
      if ret.Success? {
        out := Set(target, value);
      }
    }
  }

  method UIntInt(target: IntType, inType: IntType, inVal: uint64, cm: IntCastMode, warning: ObRet)
      returns (ret: ObRet, warning': ObRet, out: CastResult)
    ensures inType.IsSigned() || !target.IsSigned() ==> ret == ErrUnexpected && out.NotSet?
    ensures !inType.IsSigned() && target.IsSigned() && cm.externalCall && cm.noCastIntUInt ==>
              ret == Success && out == Set(inType, inVal)
    ensures !inType.IsSigned() && target.IsSigned() && !(cm.externalCall && cm.noCastIntUInt) && cm.needRangeCheck ==>
              CastMeaning(inVal, target, cm.warnOnFail, warning, ret, warning', out)
    ensures !inType.IsSigned() && target.IsSigned() && !(cm.externalCall && cm.noCastIntUInt) && !cm.needRangeCheck ==>
              ret == Success && out == Set(target, ToInt64(inVal))
  {
    out, warning' := NotSet, warning;
    if inType.IsSigned() || !target.IsSigned() {
      ret := ErrUnexpected;
    } else if cm.externalCall && cm.noCastIntUInt {
      ret := Success;
      out := Set(inType, inVal);
    } else {
      var value: int := ToInt64(inVal);
      ret := Success;
      if cm.needRangeCheck {
        var checked;
        checked, value := NumericUpperCheck(inVal, MaxVal(target), value);
        ret, warning' := GetCastRet(cm, checked, warning);
      }
      if ret.Success? {
        out := Set(target, value);
      }
    }
  }

  method UIntUInt(target: IntType, inType: IntType, inVal: uint64, cm: IntCastMode, warning: ObRet)
      returns (ret: ObRet, warning': ObRet, out: CastResult)
    ensures inType.IsSigned() || target.IsSigned() ==> ret == ErrUnexpected && out.NotSet?
    ensures !inType.IsSigned() && !target.IsSigned() && InType(inVal, inType) ==>
              CastMeaning(inVal, target, cm.warnOnFail, warning, ret, warning', out)
  {
    out, warning' := NotSet, warning;
    if inType.IsSigned() || target.IsSigned() {
      ret := ErrUnexpected;
    } else {
      var value: int := inVal;
      ret := Success;
      if inType.Ordinal() > target.Ordinal() {
        var checked;
        checked, value := NumericUpperCheck(inVal, MaxVal(target), value);
        ret, warning' := GetCastRet(cm, checked, warning);
      }
      if ret.Success? {
        out := Set(target, value);
      }
    }
  }

  /** What a range-checked cast means: in warn mode it saturates and warns, otherwise it fails and
      sets nothing, in both cases exactly when the value is outside the result type. */
  ghost predicate CastMeaning(v: int, target: IntType, warn: bool, warning: ObRet,
                              ret: ObRet, warning': ObRet, out: CastResult)
  {
    if InType(v, target) then ret == Success && warning' == warning && out == Set(target, v)
    else if warn then ret == Success && warning' == DataOutOfRange && out == Set(target, Saturate(v, target))
    else ret == DataOutOfRange && warning' == warning && out == NotSet
  }

  /** ob_obj_cast between integer types in saturating mode: the cast chosen by the two classes. */
  method CastInteger(target: IntType, inType: IntType, inVal: int, cm: IntCastMode) returns (out: CastResult)
    requires InType(inVal, inType) && Saturating(cm)
    ensures out == Set(target, Saturate(inVal, target))
  {
    var ret, warning';
    if inType.IsSigned() {
      if target.IsSigned() {
        ret, warning', out := IntInt(target, inType, inVal, cm, Success);
      } else {
        ret, warning', out := IntUInt(target, inType, inVal, cm, Success);
      }
    } else {
      if target.IsSigned() {
        ret, warning', out := UIntInt(target, inType, inVal, cm, Success);
      } else {
        ret, warning', out := UIntUInt(target, inType, inVal, cm, Success);
      }
    }
  }

  /** Every range of one type that contains the range of another can stand between. */
  predicate RangeWithin(inner: IntType, outer: IntType) {
    MinVal(outer) <= MinVal(inner) && MaxVal(inner) <= MaxVal(outer)
  }

  /** Casting through via first changes nothing, for every value, exactly when the range of via
      contains the range of the final type. */
  lemma CastThroughIff(via: IntType, last: IntType)
    ensures (forall v: int :: Saturate(Saturate(v, via), last) == Saturate(v, last)) <==> RangeWithin(last, via)
  {
    if !RangeWithin(last, via) {
      var v := if MinVal(last) < MinVal(via) then MinVal(last) else MaxVal(last);
      assert Saturate(v, last) == v;
      assert Saturate(Saturate(v, via), last) != v;
    }
  }

  lemma SaturateMonotone(x: int, y: int, t: IntType)
    requires x <= y
    ensures Saturate(x, t) <= Saturate(y, t)
  {
  }

  // ------------------------------------------------------------------ get_precision_for_integer

  const BOUND_INFO_START_POS: nat := 18

  const BOUND_INFO: seq<uint64> := [
    0x8000_0000_0000_0000,
    999999999999999999,
    99999999999999999,
    9999999999999999,
    999999999999999,
    99999999999999,
    9999999999999,
    999999999999,
    99999999999,
    9999999999,
    999999999,
    99999999,
    9999999,
    999999,
    99999,
    9999,
    999,
    99,
    9,
    99,
    999,
    9999,
    99999,
    999999,
    9999999,
    99999999,
    999999999,
    9999999999,
    99999999999,
    999999999999,
    9999999999999,
    99999999999999,
    999999999999999,
    9999999999999999,
    99999999999999999,
    999999999999999999,
    9999999999999999999,
    0xFFFF_FFFF_FFFF_FFFF
  ]

  /** Away from its two ends the table holds 9, 99, 999, ... outward from the middle. */
  lemma BoundTable(k: nat)
    requires k <= 18
    ensures k <= 17 ==> BOUND_INFO[18 - k] == Pow10(k + 1) - 1
    ensures BOUND_INFO[18 + k] == Pow10(k + 1) - 1
    ensures |BOUND_INFO| == 38
  {
    hide Pow10;
    PowTableLow(k);
    PowTableHigh(k);
  }

  lemma PowTableLow(k: nat)
    ensures k == 0 ==> Pow10(k + 1) == 10
    ensures k == 1 ==> Pow10(k + 1) == 100
    ensures k == 2 ==> Pow10(k + 1) == 1000
    ensures k == 3 ==> Pow10(k + 1) == 10000
    ensures k == 4 ==> Pow10(k + 1) == 100000
    ensures k == 5 ==> Pow10(k + 1) == 1000000
    ensures k == 6 ==> Pow10(k + 1) == 10000000
    ensures k == 7 ==> Pow10(k + 1) == 100000000
    ensures k == 8 ==> Pow10(k + 1) == 1000000000
    ensures k == 9 ==> Pow10(k + 1) == 10000000000
  {
    assert Pow10(1) == 10;
    assert Pow10(2) == 100;
    assert Pow10(3) == 1000;
    assert Pow10(4) == 10000;
    assert Pow10(5) == 100000;
    assert Pow10(6) == 1000000;
    assert Pow10(7) == 10000000;
    assert Pow10(8) == 100000000;
    assert Pow10(9) == 1000000000;
    assert Pow10(10) == 10000000000;
  }

  lemma PowTableHigh(k: nat)
    ensures k == 10 ==> Pow10(k + 1) == 100000000000
    ensures k == 11 ==> Pow10(k + 1) == 1000000000000
    ensures k == 12 ==> Pow10(k + 1) == 10000000000000
    ensures k == 13 ==> Pow10(k + 1) == 100000000000000
    ensures k == 14 ==> Pow10(k + 1) == 1000000000000000
    ensures k == 15 ==> Pow10(k + 1) == 10000000000000000
    ensures k == 16 ==> Pow10(k + 1) == 100000000000000000
    ensures k == 17 ==> Pow10(k + 1) == 1000000000000000000
    ensures k == 18 ==> Pow10(k + 1) == 10000000000000000000
  {
    assert Pow10(11) == 100000000000;
    assert Pow10(12) == 1000000000000;
    assert Pow10(13) == 10000000000000;
    assert Pow10(14) == 100000000000000;
    assert Pow10(15) == 1000000000000000;
    assert Pow10(16) == 10000000000000000;
    assert Pow10(17) == 100000000000000000;
    assert Pow10(18) == 1000000000000000000;
    assert Pow10(19) == 10000000000000000000;
  }

  /** Walks the table outward from the middle, to the left for a negative value and to the right for
      a non-negative one, and never leaves it. The result is the number of decimal digits. */
  method GetPrecisionForInteger(value: int) returns (precision: int)
    requires -0x8000_0000_0000_0000 <= value < 0x1_0000_0000_0000_0000
    ensures value == 0 ==> precision == 1
    ensures value != 0 ==> precision > 0 && Pow10(precision - 1) <= Abs(value) < Pow10(precision)
  {
    hide Pow10;
    var flag := if value < 0 then -1 else 1;
    // the product is taken modulo 2^64, so the least int64 reads as 2^63
    var absValue := (value * flag) % 0x1_0000_0000_0000_0000;
    assert absValue == Abs(value);
    var iter := BOUND_INFO_START_POS;
    ghost var k: nat := 0;
    BoundTable(0);
    PowTableLow(0);
    OnePower();
    while absValue > BOUND_INFO[iter]
      invariant iter == BOUND_INFO_START_POS + k * flag
      invariant k <= if flag < 0 then 18 else 19
      invariant k > 0 ==> absValue >= Pow10(k)
      decreases 20 - k
    {
      BoundTable(k);
      iter := iter + flag;
      k := k + 1;
    }
    if k <= 18 {
      BoundTable(k);
      PowTableHigh(18);
    } else {
      PowAbove();
    }
    precision := (iter - BOUND_INFO_START_POS) * flag + 1;
    assert precision == k + 1;
  }

  lemma OnePower()
    ensures Pow10(0) == 1
  {
  }

  lemma PowAbove()
    ensures Pow10(20) > 0xFFFF_FFFF_FFFF_FFFF
  {
    PowTableHigh(18);
  }
}
