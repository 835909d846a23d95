/** Comparison of datetimes and timestamps. Some types store local time and some store UTC; four
    separately written families of comparators bring the two sides together with a time-zone offset. */
module Temporal {
  import opened Arithmetic
  import opened TwosComplement
  import opened ObjCompare

  /** DateTime and TimestampNano store local time, the others UTC. */
  datatype TemporalType = DateTime | Timestamp | TimestampTZ | TimestampLTZ | TimestampNano
  {
    /** The type class ObOTimestampTC; the other two types are ObDateTimeTC. */
    predicate IsOTimestamp() { TimestampTZ? || TimestampLTZ? || TimestampNano? }
    predicate IsLocal() { DateTime? || TimestampNano? }
  }

  /** Microseconds, and the nanosecond tail that only the ObOTimestampTC types carry. */
  datatype Moment = Moment(ty: TemporalType, timeUs: int64, tailNs: int)

  const INVALID_TZ_OFF: int := 0x7FFF_FFFF

  /** Only the ObOTimestampTC types carry a tail. */
  predicate Ok(a: Moment) {
    !a.ty.IsOTimestamp() ==> a.tailNs == 0
  }

  predicate ValidOffset(tz: int) {
    tz != INVALID_TZ_OFF && InInt64(tz)
  }

  predicate InInt64(v: int) {
    Fits(v, 8)
  }

  /** v -= tz_off in 64 bits. */
  function Shift(v: int, tz: int): int {
    Wrap(v - tz, 8)
  }

  /** ObOTimestampData::compare. */
  function CompareData(us1: int, ns1: int, us2: int, ns2: int): int {
    if us1 > us2 then 1
    else if us1 < us2 then -1
    else if ns1 > ns2 then 1
    else if ns1 < ns2 then -1
    else 0
  }

  // ------------------------------------------------------------------ three-way comparators

  function CmpDtDt(a: Moment, b: Moment, tz: int): int {
    if a.ty != b.ty then
      if tz == INVALID_TZ_OFF then CR_ERROR
      else if a.ty.DateTime? then CmpSame(Shift(a.timeUs, tz), b.timeUs)
      else CmpSame(a.timeUs, Shift(b.timeUs, tz))
    else CmpSame(a.timeUs, b.timeUs)
  }

  function CmpDtOt(a: Moment, b: Moment, tz: int): int {
    if !b.ty.TimestampNano? then
      if tz == INVALID_TZ_OFF then CR_ERROR
      else CompareData(Shift(a.timeUs, tz), 0, b.timeUs, b.tailNs)
    else CompareData(a.timeUs, 0, b.timeUs, b.tailNs)
  }

  function CmpOtDt(a: Moment, b: Moment, tz: int): int {
    if !a.ty.TimestampNano? then
      if tz == INVALID_TZ_OFF then CR_ERROR
      else CompareData(a.timeUs, a.tailNs, Shift(b.timeUs, tz), 0)
    else CompareData(a.timeUs, a.tailNs, b.timeUs, 0)
  }

  function CmpOtOt(a: Moment, b: Moment, tz: int): int {
    if a.ty.TimestampNano? != b.ty.TimestampNano? then
      if tz == INVALID_TZ_OFF then CR_ERROR
      else if a.ty.TimestampNano? then CompareData(Shift(a.timeUs, tz), a.tailNs, b.timeUs, b.tailNs)
      else CompareData(a.timeUs, a.tailNs, Shift(b.timeUs, tz), b.tailNs)
    else CompareData(a.timeUs, a.tailNs, b.timeUs, b.tailNs)
  }

  function CmpMoment(a: Moment, b: Moment, tz: int): int {
    match (a.ty.IsOTimestamp(), b.ty.IsOTimestamp())
    case (false, false) => CmpDtDt(a, b, tz)
    case (false, true) => CmpDtOt(a, b, tz)
    case (true, false) => CmpOtDt(a, b, tz)
    case (true, true) => CmpOtOt(a, b, tz)
  }

  // ------------------------------------------------------------------ boolean comparators

  function OpDtDt(a: Moment, b: Moment, op: CmpOp, tz: int): int {
    if a.ty != b.ty then
      if tz == INVALID_TZ_OFF then CR_ERROR
      else if a.ty.DateTime? then Truth(Test(Shift(a.timeUs, tz), op, b.timeUs))
      else Truth(Test(a.timeUs, op, Shift(b.timeUs, tz)))
    else Truth(Test(a.timeUs, op, b.timeUs))
  }

  function OpDtOt(a: Moment, b: Moment, op: CmpOp, tz: int): int {
    if !b.ty.TimestampNano? then
      if tz == INVALID_TZ_OFF then CR_ERROR
      else Truth(Test(CompareData(Shift(a.timeUs, tz), 0, b.timeUs, b.tailNs), op, 0))
    else Truth(Test(CompareData(a.timeUs, 0, b.timeUs, b.tailNs), op, 0))
  }

  function OpOtDt(a: Moment, b: Moment, op: CmpOp, tz: int): int {
    if !a.ty.TimestampNano? then
      if tz == INVALID_TZ_OFF then CR_ERROR
      else Truth(Test(CompareData(a.timeUs, a.tailNs, Shift(b.timeUs, tz), 0), op, 0))
    else Truth(Test(CompareData(a.timeUs, a.tailNs, b.timeUs, 0), op, 0))
  }

  function OpOtOt(a: Moment, b: Moment, op: CmpOp, tz: int): int {
    if a.ty.TimestampNano? != b.ty.TimestampNano? then
      if tz == INVALID_TZ_OFF then CR_ERROR
      else if a.ty.TimestampNano?
      then Truth(Test(CompareData(Shift(a.timeUs, tz), a.tailNs, b.timeUs, b.tailNs), op, 0))
      else Truth(Test(CompareData(a.timeUs, a.tailNs, Shift(b.timeUs, tz), b.tailNs), op, 0))
    else Truth(Test(CompareData(a.timeUs, a.tailNs, b.timeUs, b.tailNs), op, 0))
  }

  function OpMoment(a: Moment, b: Moment, op: CmpOp, tz: int): int {
    match (a.ty.IsOTimestamp(), b.ty.IsOTimestamp())
    case (false, false) => OpDtDt(a, b, op, tz)
    case (false, true) => OpDtOt(a, b, op, tz)
    case (true, false) => OpOtDt(a, b, op, tz)
    case (true, true) => OpOtOt(a, b, op, tz)
  }

  lemma OpMomentAgrees(a: Moment, b: Moment, op: CmpOp, tz: int)
    ensures var c := CmpMoment(a, b, tz);
            OpMoment(a, b, op, tz) == if c == CR_ERROR then CR_ERROR else Truth(Test(c, op, 0))
  {
  }

  /** What the answers say for an offset that is there: 1 or 0 as the three-way result meets the operator. */
  lemma OpMomentMeans(a: Moment, b: Moment, tz: int)
    requires tz != 0x7FFF_FFFF
    ensures var c := CmpMoment(a, b, tz);
            && -1 <= c <= 1
            && OpMoment(a, b, EQ, tz) == (if c == 0 then 1 else 0)
            && OpMoment(a, b, NE, tz) == (if c != 0 then 1 else 0)
            && OpMoment(a, b, LT, tz) == (if c < 0 then 1 else 0)
            && OpMoment(a, b, LE, tz) == (if c <= 0 then 1 else 0)
            && OpMoment(a, b, GT, tz) == (if c > 0 then 1 else 0)
            && OpMoment(a, b, GE, tz) == (if c >= 0 then 1 else 0)
  {
    hide Shift;
  }

  // ------------------------------------------------------------------ without an offset

  /** The pairs of types that are not compared without a time-zone offset: DateTime with Timestamp, either
      of them with a zoned nanosecond type, and TimestampNano with a zoned nanosecond type. */
  predicate NeedsOffset(t1: TemporalType, t2: TemporalType) {
    match t1
    case DateTime => t2.Timestamp? || t2.TimestampTZ? || t2.TimestampLTZ?
    case Timestamp => t2.DateTime? || t2.TimestampTZ? || t2.TimestampLTZ?
    case TimestampTZ => t2.DateTime? || t2.Timestamp? || t2.TimestampNano?
    case TimestampLTZ => t2.DateTime? || t2.Timestamp? || t2.TimestampNano?
    case TimestampNano => t2.TimestampTZ? || t2.TimestampLTZ?
  }

  /** With the invalid offset exactly those pairs are an error, and every other pair is ordered by what
      is stored: microseconds, then the tail. */
  lemma InvalidOffsetCompare(a: Moment, b: Moment)
    requires Ok(a) && Ok(b)
    ensures CmpMoment(a, b, 0x7FFF_FFFF) == CR_ERROR <==> NeedsOffset(a.ty, b.ty)
    ensures !NeedsOffset(a.ty, b.ty) ==>
              && (CmpMoment(a, b, 0x7FFF_FFFF) < 0
                  <==> a.timeUs < b.timeUs || (a.timeUs == b.timeUs && a.tailNs < b.tailNs))
              && (CmpMoment(a, b, 0x7FFF_FFFF) == 0 <==> a.timeUs == b.timeUs && a.tailNs == b.tailNs)
    ensures forall op :: OpMoment(a, b, op, 0x7FFF_FFFF) == CR_ERROR <==> NeedsOffset(a.ty, b.ty)
  {
    hide Shift;
  }

  // ------------------------------------------------------------------ one UTC time line

  function UtcUs(a: Moment, tz: int): int {
    if a.ty.IsLocal() then a.timeUs - tz else a.timeUs
  }

  /** The intended order: UTC microseconds, then the nanosecond tail. */
  function UtcOrder(a: Moment, b: Moment, tz: int): int {
    CompareData(UtcUs(a, tz), a.tailNs, UtcUs(b, tz), b.tailNs)
  }

  /** A Timestamp against an ObOTimestampTC type: those comparators take every ObDateTimeTC value
      for local time, and a Timestamp is not. */
  predicate MixesTimestamp(t1: TemporalType, t2: TemporalType) {
    (t1.Timestamp? && t2.IsOTimestamp()) || (t2.Timestamp? && t1.IsOTimestamp())
  }

  /** Where one side stores local time and the other UTC, the local time can be shifted in 64 bits. */
  predicate NoWrap(a: Moment, b: Moment, tz: int) {
    a.ty.IsLocal() != b.ty.IsLocal() ==>
      && (a.ty.IsLocal() ==> InInt64(a.timeUs - tz))
      && (b.ty.IsLocal() ==> InInt64(b.timeUs - tz))
  }

  lemma Int64Bounds(v: int)
    ensures InInt64(v) <==> -0x8000_0000_0000_0000 <= v <= 0x7FFF_FFFF_FFFF_FFFF
  {
    assert Range(7) == 0x100_0000_0000_0000;
  }

  /** About 73000 years either way never wrap. */
  lemma FarInside(a: Moment, b: Moment, tz: int)
    requires -0x2000_0000_0000_0000 <= a.timeUs < 0x2000_0000_0000_0000
    requires -0x2000_0000_0000_0000 <= b.timeUs < 0x2000_0000_0000_0000
    requires -0x2000_0000_0000_0000 <= tz < 0x2000_0000_0000_0000
    ensures NoWrap(a, b, tz)
  {
    Int64Bounds(a.timeUs - tz);
    Int64Bounds(b.timeUs - tz);
  }

  lemma ShiftExact(v: int, tz: int)
    ensures InInt64(v - tz) ==> Shift(v, tz) == v - tz
  {
  }

  /** Away from a wrapping shift the four families compute one order. */
  lemma CmpMomentIsUtcOrder(a: Moment, b: Moment, tz: int)
    requires Ok(a) && Ok(b) && ValidOffset(tz) && NoWrap(a, b, tz)
    requires tz == 0 || !MixesTimestamp(a.ty, b.ty)
    ensures CmpMoment(a, b, tz) == UtcOrder(a, b, tz)
  {
    hide Shift, InInt64;
    ShiftExact(a.timeUs, tz);
    ShiftExact(b.timeUs, tz);
    Int64Bounds(a.timeUs);
    Int64Bounds(b.timeUs);
  }

  /** Nanoseconds since the epoch in UTC. */
  function UtcNs(a: Moment, tz: int): int {
    1000 * UtcUs(a, tz) + a.tailNs
  }

  /** With tails below a microsecond that order is the order of UTC nanoseconds. */
  lemma CmpMomentIsUtcNs(a: Moment, b: Moment, tz: int)
    requires Ok(a) && Ok(b) && ValidOffset(tz) && NoWrap(a, b, tz)
    requires tz == 0 || !MixesTimestamp(a.ty, b.ty)
    requires 0 <= a.tailNs < 1000 && 0 <= b.tailNs < 1000
    ensures CmpMoment(a, b, tz) < 0 <==> UtcNs(a, tz) < UtcNs(b, tz)
    ensures CmpMoment(a, b, tz) == 0 <==> UtcNs(a, tz) == UtcNs(b, tz)
    ensures CmpMoment(a, b, tz) > 0 <==> UtcNs(a, tz) > UtcNs(b, tz)
  {
    hide CmpMoment, NoWrap, ValidOffset;
    CmpMomentIsUtcOrder(a, b, tz);
  }

  ghost predicate AlwaysUtcOrder(t1: TemporalType, t2: TemporalType, tz: int) {
    forall a: Moment, b: Moment | Ok(a) && Ok(b) && a.ty == t1 && b.ty == t2 && NoWrap(a, b, tz) ::
      CmpMoment(a, b, tz) == UtcOrder(a, b, tz)
  }

  /** Exactly which pairs of types the comparators order on the UTC time line: all but Timestamp
      against an ObOTimestampTC type, and those too when the offset is zero. */
  lemma UtcOrderIff(t1: TemporalType, t2: TemporalType, tz: int)
    requires ValidOffset(tz)
    ensures AlwaysUtcOrder(t1, t2, tz) <==> tz == 0 || !MixesTimestamp(t1, t2)
  {
    hide InInt64, CmpMoment, UtcOrder;
    if tz == 0 || !MixesTimestamp(t1, t2) {
      forall a: Moment, b: Moment | Ok(a) && Ok(b) && a.ty == t1 && b.ty == t2 && NoWrap(a, b, tz)
        ensures CmpMoment(a, b, tz) == UtcOrder(a, b, tz)
      {
        CmpMomentIsUtcOrder(a, b, tz);
      }
    } else {
      var a, b := SameInstant(t1, t2, tz);
      assert CmpMoment(a, b, tz) != UtcOrder(a, b, tz);
    }
  }

  /** Midnight UTC in both types, which the comparators tell apart. */
  lemma SameInstant(t1: TemporalType, t2: TemporalType, tz: int) returns (a: Moment, b: Moment)
    requires ValidOffset(tz) && tz != 0 && MixesTimestamp(t1, t2)
    ensures a.ty == t1 && b.ty == t2 && Ok(a) && Ok(b) && NoWrap(a, b, tz)
    ensures UtcOrder(a, b, tz) == 0 != CmpMoment(a, b, tz)
  {
    hide InInt64, Shift;
    Int64Bounds(tz);
    Int64Bounds(0);
    ShiftZero(tz);
    a := Moment(t1, if t1.IsLocal() then tz else 0, 0);
    b := Moment(t2, if t2.IsLocal() then tz else 0, 0);
  }

  lemma ShiftZero(tz: int)
    requires InInt64(tz) && tz != 0
    ensures Shift(0, tz) != 0
  {
    hide Wrap;
    NegationWraps(tz, 8);
  }

  lemma NegationWraps(v: int, n: nat)
    requires n > 0 && Fits(v, n) && v != 0
    ensures Wrap(-v, n) != 0
  {
    var r := Range(n);
    var k := WrapDifference(-v, n);
    hide Wrap, Half, Range;
    if k >= 1 {
      MulMonotone(r, 1, k);
    } else if k <= -1 {
      MulMonotone(r, k, -1);
    }
  }

  predicate Consistent(a: Moment, b: Moment, tz: int) {
    && Ok(a) && Ok(b) && ValidOffset(tz) && NoWrap(a, b, tz)
    && (tz == 0 || !MixesTimestamp(a.ty, b.ty))
  }

  /** For one offset the comparisons among the consistently ordered types form a total preorder. */
  lemma MomentTotalPreorder(a: Moment, b: Moment, c: Moment, tz: int)
    requires Consistent(a, b, tz) && Consistent(b, c, tz) && Consistent(a, c, tz)
    ensures -1 <= CmpMoment(a, b, tz) <= 1 && CmpMoment(a, a, tz) == 0
    ensures CmpMoment(a, b, tz) == -CmpMoment(b, a, tz)
    ensures CmpMoment(a, b, tz) <= 0 && CmpMoment(b, c, tz) <= 0 ==>
              && CmpMoment(a, c, tz) <= 0
              && (CmpMoment(a, c, tz) == 0 <==> CmpMoment(a, b, tz) == 0 && CmpMoment(b, c, tz) == 0)
  {
    hide CmpMoment, InInt64;
    CmpMomentIsUtcOrder(a, a, tz);
    CmpMomentIsUtcOrder(a, b, tz);
    CmpMomentIsUtcOrder(b, a, tz);
    CmpMomentIsUtcOrder(b, c, tz);
    CmpMomentIsUtcOrder(a, c, tz);
  }

  /** With a Timestamp in the middle transitivity is lost: for an offset of one hour, 00:30 local
      is before 00:00 UTC, which counts as before 23:15 UTC the day before, which is before 00:30
      local. */
  lemma TimestampBreaksTransitivity()
    ensures var hour := 3600000000;
            var (a, b, c) := (Moment(DateTime, 1800000000, 0), Moment(Timestamp, 0, 0),
                              Moment(TimestampTZ, -2700000000, 0));
            && ValidOffset(hour) && Ok(a) && Ok(b) && Ok(c)
            && CmpMoment(a, b, hour) < 0 && CmpMoment(b, c, hour) < 0 && CmpMoment(c, a, hour) < 0
  {
    hide InInt64, Shift;
    Int64Bounds(3600000000);
    Int64Bounds(1800000000 - 3600000000);
    Int64Bounds(0 - 3600000000);
    ShiftExact(1800000000, 3600000000);
    ShiftExact(0, 3600000000);
  }
}
