/** The decimal-int scaling and comparison routines of lib/wide_integer. Widths are bytes;
    every intermediate is wrapped to the C++ type that holds it. */
module WideInteger {
  import opened Arithmetic
  import opened TwosComplement
  import opened DecimalIntBuilders
  import opened Errors

  /** The widths DISPATCH_WIDTH_TASK and the comparison table know. */
  predicate ValidWidth(n: int) {
    n == 4 || n == 8 || n == 16 || n == 32 || n == 64
  }

  const MAX_POSSIBLE_PRECISION: nat := 81

  /** get_int_bytes_by_precision. */
  function IntBytesByPrecision(precision: int): (n: nat)
    ensures precision > 0 ==> ValidWidth(n)
  {
    if precision <= 0 then 0
    else if precision <= 9 then 4
    else if precision <= 18 then 8
    else if precision <= 38 then 16
    else if precision <= 76 then 32
    else 64
  }

  // ------------------------------------------------------------------ powers used by the loops

  const BITS: seq<nat> := [1, 2, 4, 8, 16]
  const POWS: seq<int> := [10, 100, 10000, 100000000, 10000000000000000]
  const CARRY_THRESHOLDS: seq<int> := [5, 50, 5000, 50000000, 5000000000000000]

  /** scale & (1 << i). */
  predicate HasBit(scale: nat, i: nat)
    requires i < 5
  {
    (scale / BITS[i]) % 2 == 1
  }

  lemma BitFits(scale: nat, i: nat)
    requires i < 5 && HasBit(scale, i)
    ensures scale >= BITS[i]
  {
  }

  lemma PowsTable(i: nat)
    requires i < 5
    ensures POWS[i] == Pow10(BITS[i])
    ensures 2 * CARRY_THRESHOLDS[i] == POWS[i]
  {
    Pow10Add(1, 1);
    Pow10Add(2, 2);
    Pow10Add(4, 4);
    Pow10Add(8, 8);
    assert Pow10(1) == 10;
  }

  /** 10^p is within the signed range of the width chosen for precision p, so both strict bounds
      -10^p and 10^p are representable there. */
  lemma BoundsFit(p: nat)
    requires 1 <= p <= MAX_POSSIBLE_PRECISION
    ensures Fits(Pow10(p), IntBytesByPrecision(p)) && Fits(-Pow10(p), IntBytesByPrecision(p))
  {
    hide Pow10, Half, Range;
    var n := IntBytesByPrecision(p);
    WidthLimit(n);
    BoundFits(p, TopPrecision(n), n);
  }

  lemma BoundFits(p: nat, top: nat, n: nat)
    requires n > 0 && p <= top && Pow10(top) < Half(n)
    ensures Fits(Pow10(p), n) && Fits(-Pow10(p), n)
  {
    Pow10Monotone(p, top);
  }

  /** The largest precision stored in n bytes. */
  function TopPrecision(n: nat): nat
    requires ValidWidth(n)
  {
    match n
    case 4 => 9
    case 8 => 18
    case 16 => 38
    case 32 => 76
    case 64 => MAX_POSSIBLE_PRECISION
  }

  lemma WidthLimit(n: nat)
    requires ValidWidth(n)
    ensures Pow10(TopPrecision(n)) < Half(n)
  {
    PowLiterals();
    RangeLiterals();
  }

  /** And no narrower supported width holds it. */
  lemma WidthIsLeast(p: nat, n: nat)
    requires 1 <= p <= MAX_POSSIBLE_PRECISION && ValidWidth(n) && n < IntBytesByPrecision(p)
    ensures !Fits(Pow10(p), n)
  {
    hide Pow10, Half, Range;
    Pow10Monotone(TopPrecision(n) + 1, p);
    PastTop(n);
  }

  lemma PastTop(n: nat)
    requires ValidWidth(n) && n < 64
    ensures Pow10(TopPrecision(n) + 1) >= Half(n)
  {
    PowLiterals();
    RangeLiterals();
  }

  lemma PowLiterals()
    ensures Pow10(9) == 1000000000
    ensures Pow10(18) == 1000000000000000000
    ensures Pow10(38) == 100000000000000000000000000000000000000
    ensures Pow10(76) == 10000000000000000000000000000000000000000000000000000000000000000000000000000
    ensures Pow10(81) == 1000000000000000000000000000000000000000000000000000000000000000000000000000000000
  {
    PowStep(9, 9, 1000000000, 1000000000);
    PowStep(18, 18, 1000000000000000000, 1000000000000000000);
    PowStep(36, 2, 1000000000000000000000000000000000000, 100);
    PowStep(38, 38, 100000000000000000000000000000000000000, 100000000000000000000000000000000000000);
    PowStep(76, 5, 10000000000000000000000000000000000000000000000000000000000000000000000000000, 100000);
  }

  lemma PowStep(a: nat, b: nat, pa: int, pb: int)
    requires Pow10(a) == pa && Pow10(b) == pb
    ensures Pow10(a + b) == pa * pb
  {
    Pow10Add(a, b);
  }

  lemma RangeLiterals()
    ensures Range(3) == 0x1000000
    ensures Range(7) == 0x100000000000000
    ensures Range(15) == 0x1000000000000000000000000000000
    ensures Range(31) == 0x100000000000000000000000000000000000000000000000000000000000000
    ensures Range(63) == 0x100 * (0x100000000000000000000000000000000000000000000000000000000000000
                                  * 0x100000000000000000000000000000000000000000000000000000000000000)
  {
    RangeSteps(3, 3, 0x1000000, 0x1000000);
    RangeSteps(7, 7, 0x100000000000000, 0x100000000000000);
    RangeSteps(15, 15, 0x1000000000000000000000000000000, 0x1000000000000000000000000000000);
    RangeSteps(31, 31, 0x100000000000000000000000000000000000000000000000000000000000000,
               0x100000000000000000000000000000000000000000000000000000000000000);
  }

  /** One doubling of a known power: Range(a + b + 1) from Range(a) and Range(b). */
  lemma RangeSteps(a: nat, b: nat, ra: int, rb: int)
    requires Range(a) == ra && Range(b) == rb
    ensures Range(a + b + 1) == 256 * (ra * rb)
  {
    RangeAdd(a, b);
  }

  // ------------------------------------------------------------------ one digit chunk at a time

  /** Dropping k more digits after a digits is dropping a + k digits. A nonzero digit was lost
      overall exactly when one was lost in either step; r0 < 0 is the case of a magnitude that
      could not be negated, where the code's test remain > 0 never succeeds. */
  lemma DropDigits(r0: int, a: nat, k: nat)
    ensures CDiv(CDiv(r0, Pow10(a)), Pow10(k)) == CDiv(r0, Pow10(a + k))
    ensures r0 >= 0 ==> CDiv(r0, Pow10(a)) >= 0
    ensures r0 <= 0 ==> CDiv(r0, Pow10(a)) <= 0
    ensures (r0 > 0 && r0 % Pow10(a + k) != 0)
       <==> (r0 > 0 && r0 % Pow10(a) != 0) || CMod(CDiv(r0, Pow10(a)), Pow10(k)) > 0
  {
    var m := Abs(r0);
    var h := m / Pow10(a);
    DropDigitsNat(m, a, k);
    CModSign(h, Pow10(k));
    CModSign(-h, Pow10(k));
    assert CDiv(-h, Pow10(k)) == -(h / Pow10(k)) by {
      if h == 0 { QuotientUnique(0, Pow10(k), 0, 0); }
    }
  }

  lemma DropDigitsNat(m: nat, a: nat, k: nat)
    ensures 0 <= m / Pow10(a) && (m / Pow10(a)) / Pow10(k) == m / Pow10(a + k)
    ensures m % Pow10(a + k) != 0 <==> m % Pow10(a) != 0 || (m / Pow10(a)) % Pow10(k) != 0
  {
    Pow10Add(a, k);
    DivNonNegative(m, Pow10(a));
    DivDiv(m, Pow10(a), Pow10(k));
    MulStrictlyMonotone(Pow10(a), 0, (m / Pow10(a)) % Pow10(k));
  }

  /** Once the quotient is zero, dropping the remaining digits changes neither it nor the flag. */
  lemma DropRest(r0: int, a: nat, s: nat)
    requires a <= s && CDiv(r0, Pow10(a)) == 0
    ensures CDiv(r0, Pow10(s)) == 0
    ensures (r0 > 0 && r0 % Pow10(s) != 0) <==> (r0 > 0 && r0 % Pow10(a) != 0)
  {
    DropDigits(r0, a, s - a);
    QuotientUnique(0, Pow10(s - a), 0, 0);
  }

  /** The rounding carry: looking only at the last chunk of k digits dropped decides whether the
      whole dropped part is at least a half, because a power of ten is even. */
  lemma CarryStep(m: nat, a: nat, k: nat)
    requires k > 0
    ensures 2 * (m % Pow10(a + k)) >= Pow10(a + k)
       <==> 2 * ((m / Pow10(a)) % Pow10(k)) >= Pow10(k)
  {
    Pow10Add(a, k);
    var p, q := Pow10(a), Pow10(k);
    DivDiv(m, p, q);
    assert q == 2 * (5 * Pow10(k - 1));
    DivNonNegative(m, p);
    HalfStep(p, 5 * Pow10(k - 1), (m / p) % q, m % p);
  }

  /** With low < p, p * hi + low reaches p * half exactly when hi reaches half. */
  lemma HalfStep(p: int, half: int, hi: int, low: int)
    requires 0 <= low < p
    ensures 2 * (p * hi + low) >= p * (2 * half) <==> 2 * hi >= 2 * half
  {
    if hi >= half {
      MulMonotone(p, half, hi);
    } else {
      MulMonotone(p, hi, half - 1);
    }
  }

  // ------------------------------------------------------------------ scaling

  /** The int512 temporary that scaling up computes in. */
  predicate IsInt512(v: int) {
    Fits(v, 64)
  }

  function Wrap512(v: int): int {
    Wrap(v, 64)
  }

  lemma Wrap512Facts(v: int)
    ensures IsInt512(Wrap512(v))
    ensures IsInt512(v) ==> Wrap512(v) == v
    ensures Wrap512(0) == 0
  {
  }

  /** What scaling up by s digits yields: the product, its overflow ignored. */
  function ScaledUp(x: int, s: nat): int {
    Wrap512(x * Pow10(s))
  }

  /** The narrowest supported width holding v. */
  function NarrowestWidth(v: int): (n: nat)
    ensures ValidWidth(n) && (IsInt512(v) ==> Fits(v, n))
  {
    if Fits(v, 4) then 4
    else if Fits(v, 8) then 8
    else if Fits(v, 16) then 16
    else if Fits(v, 32) then 32
    else 64
  }

  /** Every supported width that holds v is at least as wide. */
  lemma NarrowestIsLeast(v: int, n: nat)
    requires ValidWidth(n) && Fits(v, n)
    ensures NarrowestWidth(v) <= n
  {
    hide Fits;
  }

  /** The int512 product. */
  function Mul512(a: int, b: int): int {
    Wrap512(a * b)
  }

  lemma ScaledUpStep(x: int, a: nat, k: nat)
    ensures Mul512(ScaledUp(x, a), Pow10(k)) == ScaledUp(x, a + k)
  {
    hide Wrap, Fits, Half, Range, Pow10;
    Pow10Add(a, k);
    WrapProduct(x * Pow10(a), Pow10(k), 64);
    MulAssociative(x, Pow10(a), Pow10(k));
  }

  lemma ScaledUpChunk(x: int, a: nat, i: nat)
    requires i < 5
    ensures Mul512(ScaledUp(x, a), POWS[i]) == ScaledUp(x, a + BITS[i])
  {
    hide Mul512, ScaledUp, Pow10;
    PowsTable(i);
    ScaledUpStep(x, a, BITS[i]);
  }

  lemma ScaledUpTrivial(x: int)
    requires IsInt512(x)
    ensures ScaledUp(x, 0) == x
  {
    assert Pow10(0) == 1;
    Wrap512Facts(x);
  }

  /** Once the product is zero it stays zero. */
  lemma ScaledUpZero(x: int, a: nat, s: nat)
    requires a <= s && ScaledUp(x, a) == 0
    ensures ScaledUp(x, s) == 0
  {
    hide Wrap512, Pow10, ScaledUp;
    ScaledUpStep(x, a, s - a);
    Wrap512Facts(0);
    assert 0 * Pow10(s - a) == 0;
  }

  /** The loop of scale_up_decimalint. */
  method MultiplyByPow10(x: int, scale: nat) returns (result: int)
    requires IsInt512(x)
    ensures result == ScaledUp(x, scale)
  {
    hide Mul512, ScaledUp, IsInt512, Pow10, HasBit;
    var s: nat := scale;
    result := x;
    ScaledUpTrivial(x);
    while s != 0 && result != 0
      invariant s <= scale && result == ScaledUp(x, scale - s)
      decreases s
    {
      ghost var s0 := s;
      var i := 4;
      while s != 0 && i >= 0
        invariant -1 <= i <= 4 && s <= s0 && result == ScaledUp(x, scale - s)
        decreases i
      {
        if HasBit(s, i) {
          BitFits(s, i);
          ScaledUpChunk(x, scale - s, i);
          result := Mul512(result, POWS[i]);
          s := s - BITS[i];
        }
        i := i - 1;
      }
      if s != 0 {
        ScaledUpChunk(x, scale - s, 0);
        result := Mul512(result, 10);
        s := s - 1;
      }
    }
    if s != 0 {
      ScaledUpZero(x, scale - s, scale);
    }
  }

  method ScaleUpDecimalint(x: int, scale: nat, res: DecimalIntBuilder)
    requires res.Valid() && IsInt512(x)
    modifies res, res.buffer
    ensures res.Valid() && res.intBytes == NarrowestWidth(ScaledUp(x, scale))
    ensures res.Value() == ScaledUp(x, scale)
  {
    var result := MultiplyByPow10(x, scale);
    Wrap512Facts(x * Pow10(scale));
    hide Half, Range, Wrap;
    if Fits(result, 4) {
      res.FromValue(result, 4);
    } else if Fits(result, 8) {
      res.FromValue(result, 8);
    } else if Fits(result, 16) {
      res.FromValue(result, 16);
    } else if Fits(result, 32) {
      res.FromValue(result, 32);
    } else {
      res.FromValue(result, 64);
    }
  }

  /** What scaling a w-byte integer down by s digits with rounding yields. The smallest w-byte
      value cannot be negated in w bytes and comes back with its sign lost. */
  function ScaledDownRounded(x: int, w: nat, s: nat): int
    requires w > 0
  {
    if s == 0 then x
    else if x == MinOf(w) then -CDiv(x, Pow10(s))
    else RoundHalfAway(x, Pow10(s))
  }

  /** The loop of scale_down_decimalint_for_round, on the magnitude r0. */
  method DivideByPow10(r0: int, scale: nat) returns (result: int, lastCarry: bool)
    ensures result == CDiv(r0, Pow10(scale))
    ensures lastCarry == Carried(r0, scale)
  {
    var s: nat := scale;
    var remain;
    result, lastCarry := r0, false;
    assert CDiv(r0, Pow10(0)) == r0 && !Carried(r0, 0) by { assert Pow10(0) == 1; }
    hide CDiv, CMod, Carried, Pow10, HasBit;
    while s != 0 && result != 0
      invariant s <= scale && result == CDiv(r0, Pow10(scale - s))
      invariant lastCarry == Carried(r0, scale - s)
      decreases s
    {
      ghost var s0 := s;
      var i := 4;
      while s != 0 && result != 0 && i >= 0
        invariant -1 <= i <= 4 && s <= s0 && result == CDiv(r0, Pow10(scale - s))
        invariant lastCarry == Carried(r0, scale - s)
        decreases i
      {
        if HasBit(s, i) {
          BitFits(s, i);
          DropChunk(r0, scale - s, i);
          remain := CMod(result, POWS[i]);
          result := CDiv(result, POWS[i]);
          lastCarry := remain >= CARRY_THRESHOLDS[i];
          s := s - BITS[i];
        }
        i := i - 1;
      }
      if s != 0 {
        DropChunk(r0, scale - s, 0);
        remain := CMod(result, 10);
        result := CDiv(result, 10);
        lastCarry := remain >= 5;
        s := s - 1;
      }
    }
    if s != 0 {
      DropRest(r0, scale - s, scale);
      CarriedRest(r0, scale - s, scale);
      lastCarry := false;
    }
  }

  lemma DropChunk(r0: int, a: nat, i: nat)
    requires i < 5
    ensures CDiv(CDiv(r0, Pow10(a)), POWS[i]) == CDiv(r0, Pow10(a + BITS[i]))
    ensures CMod(CDiv(r0, Pow10(a)), POWS[i]) >= CARRY_THRESHOLDS[i] <==> Carried(r0, a + BITS[i])
    ensures (r0 > 0 && r0 % Pow10(a + BITS[i]) != 0)
       <==> (r0 > 0 && r0 % Pow10(a) != 0) || CMod(CDiv(r0, Pow10(a)), POWS[i]) > 0
  {
    PowsTable(i);
    DropDigits(r0, a, BITS[i]);
    CarriedStep(r0, a, BITS[i]);
  }

  method ScaleDownDecimalintForRound(x: int, w: nat, scale: nat, res: DecimalIntBuilder)
    requires res.Valid() && 4 <= w <= BUFFER_SIZE && Fits(x, w)
    modifies res, res.buffer
    ensures res.Valid() && res.intBytes == w
    ensures res.Value() == ScaledDownRounded(x, w, scale)
  {
    var result := x;
    if x < 0 {
      result := Wrap(-result, w);
    }
    RoundedResult(x, w, scale);
    hide CDiv, Carried, Wrap, Fits, Half, Range, ScaledDownRounded, Pow10;
    var lastCarry;
    result, lastCarry := DivideByPow10(result, scale);
    if lastCarry {
      result := result + 1;
    }
    if x < 0 {
      result := Wrap(-result, w);
    }
    res.FromValue(result, w);
  }

  /** What the code computes from the magnitude is the specified value, and it fits w bytes. */
  lemma RoundedResult(x: int, w: nat, s: nat)
    requires 4 <= w && Fits(x, w)
    ensures var r0 := if x < 0 then Wrap(-x, w) else x;
            var q := CDiv(r0, Pow10(s)) + (if Carried(r0, s) then 1 else 0);
            ScaledDownRounded(x, w, s) == (if x < 0 then Wrap(-q, w) else q)
    ensures Wrap(ScaledDownRounded(x, w, s), w) == ScaledDownRounded(x, w, s)
  {
    WrapNegated(x, w);
    var r0 := if x < 0 then Wrap(-x, w) else x;
    var q := CDiv(r0, Pow10(s)) + (if Carried(r0, s) then 1 else 0);
    Shrinks(r0, w, s);
    hide Wrap, Fits, Half, Range, Pow10, RoundHalfAway;
    if s == 0 {
      PowZero(r0);
      assert q == r0;
      WrapNegated(r0, w);
    } else {
      WrapSmall(q, w);
      assert x == MinOf(w) ==> q == CDiv(x, Pow10(s));
      if x != MinOf(w) {
        RoundedMagnitude(Abs(x), s);
      }
    }
  }

  lemma PowZero(x: int)
    ensures Pow10(0) == 1 && CDiv(x, Pow10(0)) == x
  {
  }

  lemma WrapSmall(q: int, w: nat)
    requires w > 0 && Abs(q) < Half(w)
    ensures Wrap(q, w) == q && Wrap(-q, w) == -q
  {
  }

  lemma RoundedMagnitude(m: int, s: nat)
    requires s > 0 && m >= 0
    ensures RoundHalfAway(m, Pow10(s)) == CDiv(m, Pow10(s)) + (if Carried(m, s) then 1 else 0)
    ensures RoundHalfAway(-m, Pow10(s)) == -RoundHalfAway(m, Pow10(s))
  {
    if m == 0 {
      QuotientUnique(0, Pow10(s), 0, 0);
    }
  }

  /** Negation wraps only at the smallest value, where it does nothing. */
  lemma WrapNegated(x: int, w: nat)
    requires w > 0 && Fits(x, w)
    ensures Wrap(-x, w) == if x == MinOf(w) then x else -x
  {
    if x == MinOf(w) {
      assert -x == x + Range(w) * 1;
      WrapCongruent(x, 1, w);
    } else {
      assert Fits(-x, w);
    }
  }

  /** The dropped a digits of r0 are at least half a step (never, for a negative r0). */
  ghost predicate Carried(r0: int, a: nat) {
    r0 > 0 && a > 0 && 2 * (r0 % Pow10(a)) >= Pow10(a)
  }

  lemma CarriedStep(r0: int, a: nat, k: nat)
    requires k > 0
    ensures Carried(r0, a + k) <==> 2 * CMod(CDiv(r0, Pow10(a)), Pow10(k)) >= Pow10(k)
  {
    DropDigits(r0, a, k);
    var q := CDiv(r0, Pow10(a));
    CModSign(q, Pow10(k));
    if r0 > 0 {
      CarryStep(r0, a, k);
    }
  }

  /** If a digits already leave a zero quotient, the top digit of any longer dropped part is 0. */
  lemma CarriedRest(r0: int, a: nat, s: nat)
    requires a < s && CDiv(r0, Pow10(a)) == 0
    ensures !Carried(r0, s)
  {
    CarriedStep(r0, a, s - a);
    QuotientUnique(0, Pow10(s - a), 0, 0);
  }

  /** After dropping at least one digit there is room to add one without overflow. */
  lemma Shrinks(r0: int, w: nat, s: nat)
    requires 4 <= w && Fits(r0, w)
    ensures Abs(CDiv(r0, Pow10(s))) <= Abs(r0)
    ensures s > 0 ==> Abs(CDiv(r0, Pow10(s))) + 1 < Half(w)
  {
    var m, p := Abs(r0), Pow10(s);
    DivNonNegative(m, p);
    DivShrinks(m, p, 1);
    if s > 0 {
      Pow10Monotone(1, s);
      DivShrinks(m, p, 10);
      HalfMonotone(4, w);
      assert Half(4) == 0x8000_0000;
    }
  }

  /** The loop of scale_down_decimalint_for_trunc, on the magnitude r0. */
  method TruncateByPow10(r0: int, scale: nat) returns (result: int)
    ensures result == CDiv(r0, Pow10(scale))
  {
    var s: nat := scale;
    result := r0;
    PowZero(r0);
    hide CDiv, CMod, Carried, Pow10, HasBit;
    while s != 0 && result != 0
      invariant s <= scale && result == CDiv(r0, Pow10(scale - s))
      decreases s
    {
      ghost var s0 := s;
      var i := 4;
      while s != 0 && result != 0 && i >= 0
        invariant -1 <= i <= 4 && s <= s0 && result == CDiv(r0, Pow10(scale - s))
        decreases i
      {
        if HasBit(s, i) {
          BitFits(s, i);
          DropChunk(r0, scale - s, i);
          result := CDiv(result, POWS[i]);
          s := s - BITS[i];
        }
        i := i - 1;
      }
      if s != 0 {
        DropChunk(r0, scale - s, 0);
        result := CDiv(result, 10);
        s := s - 1;
      }
    }
    if s != 0 {
      DropRest(r0, scale - s, scale);
    }
  }

  /** What scaling a w-byte integer down by s digits with truncation yields; the smallest value loses
      its sign here too. */
  function ScaledDownTruncated(x: int, w: nat, s: nat): int
    requires w > 0
  {
    if s > 0 && x == MinOf(w) then -CDiv(x, Pow10(s)) else CDiv(x, Pow10(s))
  }

  method ScaleDownDecimalintForTrunc(x: int, w: nat, scale: nat, res: DecimalIntBuilder)
    requires res.Valid() && 4 <= w <= BUFFER_SIZE && Fits(x, w)
    modifies res, res.buffer
    ensures res.Valid() && res.intBytes == w
    ensures res.Value() == ScaledDownTruncated(x, w, scale)
  {
    var result := x;
    if x < 0 {
      result := Wrap(-result, w);
    }
    TruncatedResult(x, w, scale);
    hide CDiv, Wrap, Fits, Half, Range, ScaledDownTruncated, Pow10;
    result := TruncateByPow10(result, scale);
    if x < 0 {
      result := Wrap(-result, w);
    }
    res.FromValue(result, w);
  }

  lemma TruncatedResult(x: int, w: nat, s: nat)
    requires 4 <= w && Fits(x, w)
    ensures var r0 := if x < 0 then Wrap(-x, w) else x;
            var q := CDiv(r0, Pow10(s));
            ScaledDownTruncated(x, w, s) == (if x < 0 then Wrap(-q, w) else q)
    ensures Wrap(ScaledDownTruncated(x, w, s), w) == ScaledDownTruncated(x, w, s)
  {
    WrapNegated(x, w);
    var r0 := if x < 0 then Wrap(-x, w) else x;
    var q := CDiv(r0, Pow10(s));
    Shrinks(r0, w, s);
    if s == 0 {
      PowZero(r0);
      PowZero(x);
      WrapNegated(r0, w);
    } else {
      WrapSmall(q, w);
      if x == 0 {
        QuotientUnique(0, Pow10(s), 0, 0);
      }
    }
  }

  /** What common_scale_decimalint denotes when it rounds. */
  function CommonScaled(x: int, w: nat, inScale: int, outScale: int): int
    requires w > 0
  {
    if inScale < outScale then ScaledUp(x, outScale - inScale)
    else ScaledDownRounded(x, w, inScale - outScale)
  }

  /** And when it truncates. */
  function CommonTruncated(x: int, w: nat, inScale: int, outScale: int): int
    requires w > 0
  {
    if inScale < outScale then ScaledUp(x, outScale - inScale)
    else ScaledDownTruncated(x, w, inScale - outScale)
  }

  /** The bytes its result takes. */
  function CommonWidth(x: int, w: nat, inScale: int, outScale: int): nat {
    if inScale < outScale then NarrowestWidth(ScaledUp(x, outScale - inScale)) else w
  }

  lemma WidthIsInt512(v: int, w: nat)
    requires 4 <= w <= 64 && Fits(v, w)
    ensures IsInt512(v)
  {
    HalfMonotone(w, 64);
  }

  /** What it denotes in either mode. */
  function CommonResult(x: int, w: nat, inScale: int, outScale: int, isTrunc: bool): int
    requires w > 0
  {
    if isTrunc then CommonTruncated(x, w, inScale, outScale) else CommonScaled(x, w, inScale, outScale)
  }

  /** DO_SCALE, on the value held in w bytes. */
  method ScaleValue(v: int, w: nat, inScale: int, outScale: int, res: DecimalIntBuilder, isTrunc: bool)
    requires res.Valid() && 4 <= w <= BUFFER_SIZE && Fits(v, w) && IsInt512(v)
    modifies res, res.buffer
    ensures res.Valid() && res.intBytes == CommonWidth(v, w, inScale, outScale) > 0
    ensures res.Value() == CommonResult(v, w, inScale, outScale, isTrunc)
  {
    hide Half, Range, Wrap, Fits, IsInt512, ScaledUp, ScaledDownRounded, ScaledDownTruncated;
    if inScale < outScale {
      ScaleUpDecimalint(v, outScale - inScale, res);
    } else if isTrunc {
      ScaleDownDecimalintForTrunc(v, w, inScale - outScale, res);
    } else {
      ScaleDownDecimalintForRound(v, w, inScale - outScale, res);
    }
  }

  /** common_scale_decimalint; None is the null pointer. */
  method CommonScaleDecimalint(decint: Option<seq<byte>>, inScale: int, outScale: int, res: DecimalIntBuilder,
                               isTrunc: bool)
      returns (ret: ObRet)
    requires res.Valid()
    modifies res, res.buffer
    ensures res.Valid()
    ensures ret == if decint.None? then InvalidArgument
                   else if ValidWidth(|decint.value|) then Success else ErrUnexpected
    ensures ret.Success? ==>
              && ValidWidth(res.intBytes)
              && res.intBytes == CommonWidth(Signed(decint.value), |decint.value|, inScale, outScale)
              && res.Value() == CommonResult(Signed(decint.value), |decint.value|, inScale, outScale, isTrunc)
  {
    hide Signed, IsInt512, Fits, ScaledUp, CommonResult, Half, Range, Wrap;
    if decint.None? {
      return InvalidArgument;
    }
    var bytes := decint.value;
    if !ValidWidth(|bytes|) {
      return ErrUnexpected;
    }
    var v := Signed(bytes);
    SignedIsWrap(bytes);
    WidthIsInt512(v, |bytes|);
    ScaleValue(v, |bytes|, inScale, outScale, res, isTrunc);
    ret := Success;
  }

  /** wide::compare: a table of comparators indexed by the two widths; a width outside the table
      has no comparator. */
  method Compare(lhs: DecimalIntBuilder, rhs: DecimalIntBuilder) returns (ret: ObRet, cmp: int)
    requires lhs.Valid() && rhs.Valid()
    ensures ret == if ValidWidth(lhs.intBytes) && ValidWidth(rhs.intBytes) then Success else ErrUnexpected
    ensures ret.Success? ==> cmp == Sign(lhs.Value() - rhs.Value())
  {
    if !ValidWidth(lhs.intBytes) || !ValidWidth(rhs.intBytes) {
      return ErrUnexpected, 0;
    }
    var l, r := Signed(lhs.buffer[..lhs.intBytes]), Signed(rhs.buffer[..rhs.intBytes]);
    ret := Success;
    cmp := if l < r then -1 else if l > r then 1 else 0;
  }
}
