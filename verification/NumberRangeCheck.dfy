/** number_range_check: the bound of DECIMAL(p, s) is written into a character buffer, read back as a
    number, and the input is clamped to it or rounded to s decimals. */
module NumberRangeCheck {
  import opened Arithmetic
  import opened Errors

  // ------------------------------------------------------------------ numbers

  /** The rational mantissa / 10^scale. */
  datatype Number = Number(mantissa: int, scale: nat)

  predicate Less(a: Number, b: Number) {
    a.mantissa * Pow10(b.scale) < b.mantissa * Pow10(a.scale)
  }

  predicate SameValue(a: Number, b: Number) {
    a.mantissa * Pow10(b.scale) == b.mantissa * Pow10(a.scale)
  }

  /** ObNumber::round for a non-negative scale: halves go away from zero. */
  function Round(v: Number, scale: nat): Number {
    if v.scale <= scale then v
    else Number(RoundHalfAway(v.mantissa, Pow10(v.scale - scale)), scale)
  }

  // ------------------------------------------------------------------ reading a number

  datatype ReadState = ReadState(negative: bool, signSeen: bool, digitSeen: bool, dotSeen: bool,
                                 mantissa: nat, scale: nat)

  predicate IsDigit(c: char) {
    '0' <= c <= '9'
  }

  function ReadStep(st: ReadState, c: char): Option<ReadState> {
    if c == '-' || c == '+' then
      if st.signSeen || st.digitSeen || st.dotSeen then None
      else Some(st.(negative := c == '-', signSeen := true))
    else if IsDigit(c) then
      Some(st.(digitSeen := true, mantissa := 10 * st.mantissa + (c as int - '0' as int),
               scale := if st.dotSeen then st.scale + 1 else st.scale))
    else if c == '.' then
      if st.dotSeen then None else Some(st.(dotSeen := true))
    else None
  }

  function ReadEnd(st: ReadState): Number {
    Number(if st.negative then 0 - st.mantissa else st.mantissa, st.scale)
  }

  function ReadFrom(st: ReadState, text: seq<char>): Option<Number>
    decreases |text|
  {
    if text == [] then Some(ReadEnd(st))
    else
      match ReadStep(st, text[0])
      case None => None
      case Some(next) => ReadFrom(next, text[1..])
  }

  predicate IsSpace(c: char) {
    c == ' ' || '\t' <= c <= '\r'
  }

  /** ObNumber::from on a string: blanks, one sign, digits with at most one point. */
  function ReadNumber(text: seq<char>): Option<Number> {
    if text == [] then None
    else if IsSpace(text[0]) then ReadNumber(text[1..])
    else ReadFrom(ReadState(false, false, false, false, 0, 0), text)
  }

  /** The characters before the first NUL. */
  function CString(s: seq<char>): seq<char> {
    if s == [] || s[0] == '\0' then [] else [s[0]] + CString(s[1..])
  }

  lemma {:induction false} CStringIs(s: seq<char>, t: seq<char>)
    requires t < s && s[|t|] == '\0'
    requires '\0' !in t
    ensures CString(s) == t
  {
    if t == [] {
    } else {
      assert s[0] == t[0] && t[0] in t;
      CStringIs(s[1..], t[1..]);
      assert t == [t[0]] + t[1..];
    }
  }

  function Nines(n: nat): (r: seq<char>)
    ensures |r| == n
  {
    seq(n, i => '9')
  }

  lemma {:induction false} ReadNines(st: ReadState, n: nat, rest: seq<char>)
    ensures ReadFrom(st, Nines(n) + rest)
            == ReadFrom(st.(digitSeen := st.digitSeen || n > 0,
                            mantissa := (st.mantissa + 1) * Pow10(n) - 1,
                            scale := if st.dotSeen then st.scale + n else st.scale), rest)
    decreases n
  {
    var text := Nines(n) + rest;
    if n == 0 {
      assert text == rest;
    } else {
      assert text[0] == '9' && text[1..] == Nines(n - 1) + rest;
      var next := ReadStep(st, '9').value;
      ReadNines(next, n - 1, rest);
      assert (next.mantissa + 1) * Pow10(n - 1) == (st.mantissa + 1) * Pow10(n) by {
        MulAssociative(st.mantissa + 1, 10, Pow10(n - 1));
      }
    }
  }

  // ------------------------------------------------------------------ the bound text

  const MAX_PRECISION: int := 65
  const MAX_SCALE: int := 127
  const BUFFER_SIZE: int := 2 * (MAX_SCALE + MAX_PRECISION)

  predicate ValidDecimal(precision: int, scale: int) {
    0 <= scale <= precision <= MAX_PRECISION
  }

  /** The largest DECIMAL(precision, scale). */
  function MaxNumber(precision: nat, scale: nat): Number {
    Number(Pow10(precision) - 1, scale)
  }

  function MinNumber(precision: nat, scale: nat): Number {
    Number(-(Pow10(precision) - 1), scale)
  }

  /** The text of the largest value: 999.99, or 0.99 when every digit is a decimal. */
  function BoundText(precision: nat, scale: nat): seq<char>
    requires scale <= precision
  {
    (if precision == scale then "0" else Nines(precision - scale)) + "." + Nines(scale)
  }

  /** Read back, the bound text denotes exactly (10^p - 1) / 10^s, and with the sign its negation. */
  lemma BoundTextDenotes(precision: nat, scale: nat)
    requires scale <= precision
    ensures ReadNumber(BoundText(precision, scale)) == Some(MaxNumber(precision, scale))
    ensures ReadNumber("-" + BoundText(precision, scale)) == Some(MinNumber(precision, scale))
  {
    var text := BoundText(precision, scale);
    var start := ReadState(false, false, false, false, 0, 0);
    var minus := start.(negative := true, signSeen := true);
    ReadBound(start, precision, scale);
    ReadBound(minus, precision, scale);
    assert ("-" + text)[1..] == text;
    assert ReadStep(start, '-') == Some(minus);
  }

  lemma ReadBound(st: ReadState, precision: nat, scale: nat)
    requires scale <= precision
    requires st.mantissa == 0 && st.scale == 0 && !st.digitSeen && !st.dotSeen
    ensures ReadFrom(st, BoundText(precision, scale))
            == Some(Number(if st.negative then -(Pow10(precision) - 1) else Pow10(precision) - 1, scale))
  {
    var text := BoundText(precision, scale);
    var fraction := "." + Nines(scale);
    var atDot := st.(digitSeen := true, mantissa := Pow10(precision - scale) - 1);
    if precision == scale {
      assert text[0] == '0' && text[1..] == fraction;
      assert ReadStep(st, '0') == Some(atDot);
    } else {
      hide Pow10;
      ReadNines(st, precision - scale, fraction);
      assert text == Nines(precision - scale) + fraction;
    }
    ReadFraction(atDot, precision - scale, scale);
  }

  lemma ReadFraction(st: ReadState, whole: nat, scale: nat)
    requires st.mantissa == Pow10(whole) - 1 && st.scale == 0 && !st.dotSeen
    ensures ReadFrom(st, "." + Nines(scale))
            == Some(Number(if st.negative then -(Pow10(whole + scale) - 1) else Pow10(whole + scale) - 1, scale))
  {
    hide Pow10;
    var fraction := "." + Nines(scale);
    var pastDot := st.(dotSeen := true);
    assert fraction[0] == '.' && fraction[1..] == Nines(scale) == Nines(scale) + [];
    assert ReadFrom(st, fraction) == ReadFrom(pastDot, Nines(scale));
    ReadNines(pastDot, scale, []);
    Pow10Add(whole, scale);
  }

  /** Fills the buffer in place: one run of nines, with the point stamped over one of them. */
  method WriteBound(buf: array<char>, precision: nat, scale: nat)
    requires ValidDecimal(precision, scale)
    requires buf.Length == BUFFER_SIZE && forall i :: 0 <= i < buf.Length ==> buf[i] == '\0'
    modifies buf
    ensures CString(buf[..]) == "-" + BoundText(precision, scale)
    ensures CString(buf[1..]) == BoundText(precision, scale)
  {
    hide CString;
    var pos := 0;
    buf[pos] := '-';
    pos := pos + 1;
    if precision == scale {
      buf[pos] := '0';
      pos := pos + 1;
    }
    forall i | pos <= i < pos + precision + 1 {
      buf[i] := '9';
    }
    buf[pos + precision - scale] := '.';
    ghost var text := BoundText(precision, scale);
    assert text == buf[1..1 + |text|] && buf[1 + |text|] == '\0';
    CStringIs(buf[1..], text);
    CStringIs(buf[..], "-" + text);
  }

  // ------------------------------------------------------------------ the check

  /** What the check makes of a number: the nearer bound, or the number rounded to the scale. */
  function Checked(v: Number, precision: nat, scale: nat): Number {
    if Less(v, MinNumber(precision, scale)) then MinNumber(precision, scale)
    else if Less(MaxNumber(precision, scale), v) then MaxNumber(precision, scale)
    else Round(v, scale)
  }

  predicate OutOfRange(v: Number, precision: nat, scale: nat) {
    Less(v, MinNumber(precision, scale)) || Less(MaxNumber(precision, scale), v)
  }

  method CheckNumberRange(precision: int, scale: int, v: Number, errorOnFail: bool, warning: ObRet)
      returns (ret: ObRet, warning': ObRet, res: Number)
    ensures precision < scale ==> ret == ErrMBiggerThanD
    ensures scale <= precision < 0 ==> ret == Success && warning' == warning && res == v
    ensures 0 <= scale <= precision <= 65 ==>
              && res == Checked(v, precision, scale)
              && ret == (if errorOnFail && OutOfRange(v, precision, scale) then DataOutOfRange else Success)
              && warning' == (if !errorOnFail && OutOfRange(v, precision, scale) then DataOutOfRange else warning)
    ensures scale <= precision && precision >= 0 && (scale < 0 || precision > 65) ==> ret == InvalidArgument
  {
    ret, warning', res := Success, warning, v;
    if precision < scale {
      ret := ErrMBiggerThanD;
    } else if precision < 0 && scale < 0 {
    } else if MAX_PRECISION >= precision && MAX_SCALE >= scale && precision >= 0 && scale >= 0 {
      var buf := new char[BUFFER_SIZE](i => '\0');
      WriteBound(buf, precision, scale);
      BoundTextDenotes(precision, scale);
      var minNum := ReadNumber(CString(buf[..])).value;
      var maxNum := ReadNumber(CString(buf[1..])).value;
      var castRet := Success;
      if Less(v, minNum) {
        castRet := DataOutOfRange;
        res := minNum;
      } else if Less(maxNum, v) {
        castRet := DataOutOfRange;
        res := maxNum;
      } else {
        res := Round(v, scale);
      }
      if castRet != Success {
        if errorOnFail {
          ret := castRet;
        } else {
          warning' := castRet;
        }
      }
    } else {
      ret := InvalidArgument;
    }
  }

  // ------------------------------------------------------------------ what the check guarantees

  /** v is k / 10^scale with at most precision digits. */
  ghost predicate IsDecimal(v: Number, precision: nat, scale: nat) {
    exists k: int :: Abs(k) < Pow10(precision) && SameValue(v, Number(k, scale))
  }

  lemma Cancel(x: int, y: int, c: int)
    requires c > 0
    ensures x * c <= y * c <==> x <= y
  {
    MulStrictlyMonotone(c, y, x);
  }

  /** In range means the mantissa, brought to the other scale, is within the bound. */
  lemma InRangeMantissa(v: Number, precision: nat, scale: nat)
    ensures v.scale >= scale ==>
              (!OutOfRange(v, precision, scale) <==>
               (-(Pow10(precision) - 1)) * Pow10(v.scale - scale) <= v.mantissa
               <= (Pow10(precision) - 1) * Pow10(v.scale - scale))
    ensures v.scale <= scale ==>
              (!OutOfRange(v, precision, scale) <==>
               -(Pow10(precision) - 1) <= v.mantissa * Pow10(scale - v.scale) <= Pow10(precision) - 1)
  {
    hide Pow10;
    var m, b := v.mantissa, Pow10(precision) - 1;
    if v.scale >= scale {
      var c, d := Pow10(scale), Pow10(v.scale - scale);
      Pow10Add(v.scale - scale, scale);
      MulAssociative(b, d, c);
      MulAssociative(-b, d, c);
      Cancel(m, b * d, c);
      Cancel((-b) * d, m, c);
    }
    if v.scale <= scale {
      var c, d := Pow10(v.scale), Pow10(scale - v.scale);
      Pow10Add(scale - v.scale, v.scale);
      MulAssociative(m, d, c);
      Cancel(m * d, b, c);
      Cancel(-b, m * d, c);
    }
  }

  /** Rounding an in-range number never pushes it past the bound. */
  lemma RoundWithinBounds(v: Number, precision: nat, scale: nat)
    requires v.scale > scale && !OutOfRange(v, precision, scale)
    ensures -(Pow10(precision) - 1) <= Round(v, scale).mantissa <= Pow10(precision) - 1
  {
    hide Pow10, RoundHalfAway;
    var d, b := Pow10(v.scale - scale), Pow10(precision) - 1;
    InRangeMantissa(v, precision, scale);
    RoundHalfAwayMonotone(v.mantissa, b * d, d);
    RoundHalfAwayMonotone((-b) * d, v.mantissa, d);
    RoundHalfAwayInverse(b, d);
    RoundHalfAwayInverse(-b, d);
  }

  /** Whatever goes in, a DECIMAL(precision, scale) comes out. */
  lemma CheckedIsDecimal(v: Number, precision: nat, scale: nat)
    ensures IsDecimal(Checked(v, precision, scale), precision, scale)
  {
    hide Pow10, RoundHalfAway;
    var r := Checked(v, precision, scale);
    if OutOfRange(v, precision, scale) {
      assert SameValue(r, Number(r.mantissa, scale));
    } else if v.scale > scale {
      RoundWithinBounds(v, precision, scale);
      assert SameValue(r, Number(r.mantissa, scale));
    } else {
      InRangeMantissa(v, precision, scale);
      Pow10Add(scale - v.scale, v.scale);
      MulAssociative(v.mantissa, Pow10(scale - v.scale), Pow10(v.scale));
      assert SameValue(r, Number(v.mantissa * Pow10(scale - v.scale), scale));
    }
  }

  /** A decimal of the column's own type passes unchanged, so a second check does nothing. */
  lemma CheckedFixesDecimals(v: Number, precision: nat, scale: nat)
    requires v.scale <= scale && IsDecimal(v, precision, scale)
    ensures !OutOfRange(v, precision, scale) && Checked(v, precision, scale) == v
  {
    hide Pow10;
    var k: int :| Abs(k) < Pow10(precision) && SameValue(v, Number(k, scale));
    var c, b := Pow10(v.scale), Pow10(precision) - 1;
    Cancel(k, b, c);
    Cancel(-b, k, c);
  }

  lemma CheckedIdempotent(v: Number, precision: nat, scale: nat)
    ensures !OutOfRange(Checked(v, precision, scale), precision, scale)
    ensures Checked(Checked(v, precision, scale), precision, scale) == Checked(v, precision, scale)
  {
    CheckedIsDecimal(v, precision, scale);
    CheckedFixesDecimals(Checked(v, precision, scale), precision, scale);
  }

  /** In range, a number with no more decimals than the scale is returned as it is. Any other is rounded
      to the nearest, and exactly half a unit of the last decimal only away from zero. */
  lemma CheckedNearest(v: Number, precision: nat, scale: nat)
    requires !OutOfRange(v, precision, scale)
    ensures v.scale <= scale ==> Checked(v, precision, scale) == v
    ensures v.scale > scale ==>
              var r := Checked(v, precision, scale).mantissa;
              var (m, d) := (v.mantissa, Pow10(v.scale - scale));
              && Checked(v, precision, scale).scale == scale
              && (m >= 0 ==> 2 * m - d < 2 * (r * d) <= 2 * m + d)
              && (m < 0 ==> 2 * m - d <= 2 * (r * d) < 2 * m + d)
  {
    hide Pow10, RoundHalfAway;
    if v.scale > scale {
      RoundHalfAwayNearest(v.mantissa, Pow10(v.scale - scale));
    }
  }

  /** Out of range the result is the bound on the side of the number. */
  lemma CheckedSaturates(v: Number, precision: nat, scale: nat)
    ensures v.mantissa * Pow10(scale) > (Pow10(precision) - 1) * Pow10(v.scale) ==>
              Checked(v, precision, scale) == Number(Pow10(precision) - 1, scale)
    ensures v.mantissa * Pow10(scale) < -(Pow10(precision) - 1) * Pow10(v.scale) ==>
              Checked(v, precision, scale) == Number(-(Pow10(precision) - 1), scale)
    ensures OutOfRange(v, precision, scale)
       <==> || v.mantissa * Pow10(scale) > (Pow10(precision) - 1) * Pow10(v.scale)
            || v.mantissa * Pow10(scale) < -(Pow10(precision) - 1) * Pow10(v.scale)
  {
    hide Pow10;
    var b, c := Pow10(precision) - 1, Pow10(v.scale);
    MulMonotone(b, 0, c);
    assert (-b) * c == -(b * c);
  }
}
