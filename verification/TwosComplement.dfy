/** Little-endian two's-complement integers of any whole number of bytes: the representation
    behind ObDecimalInt. */
module TwosComplement {
  import opened Arithmetic

  type byte = b: int | 0 <= b < 256

  /** Number of values n bytes can hold. */
  function Range(n: nat): (p: int)
    ensures p > 0
  {
    if n == 0 then 1 else 256 * Range(n - 1)
  }

  /** Values of an n-byte signed integer are -Half(n) .. Half(n) - 1. */
  function Half(n: nat): (h: int)
    requires n > 0
    ensures h > 0 && Range(n) == 2 * h
  {
    128 * Range(n - 1)
  }

  function MinOf(n: nat): int
    requires n > 0
  {
    -Half(n)
  }

  predicate Fits(v: int, n: nat)
    requires n > 0
  {
    -Half(n) <= v < Half(n)
  }

  /** The n-byte pattern m read as a signed number. */
  function AsSigned(m: int, n: nat): int
    requires n > 0
  {
    if m >= Half(n) then m - Range(n) else m
  }

  /** Arithmetic modulo 2^(8n), read back as signed. */
  function Wrap(v: int, n: nat): (w: int)
    requires n > 0
    ensures Fits(w, n)
    ensures Fits(v, n) ==> w == v
  {
    WrapFits(v, n);
    AsSigned(v % Range(n), n)
  }

  lemma WrapFits(v: int, n: nat)
    requires n > 0
    ensures Fits(AsSigned(v % Range(n), n), n)
    ensures Fits(v, n) ==> AsSigned(v % Range(n), n) == v
  {
    if Fits(v, n) {
      if v >= 0 {
        QuotientUnique(v, Range(n), 0, v);
      } else {
        QuotientUnique(v, Range(n), -1, v + Range(n));
      }
    }
  }

  lemma WrapCongruent(v: int, k: int, n: nat)
    requires n > 0
    ensures Wrap(v + Range(n) * k, n) == Wrap(v, n)
  {
    hide Range, Half, Fits, AsSigned;
    ModCongruent(v, Range(n), k);
  }

  /** v and its wrapped form differ by a multiple of Range(n). */
  lemma WrapDifference(v: int, n: nat) returns (k: int)
    requires n > 0
    ensures Wrap(v, n) == v + Range(n) * k
  {
    var q := v / Range(n);
    assert v == Range(n) * q + v % Range(n);
    if v % Range(n) >= Half(n) {
      k := -q - 1;
      assert Range(n) * (-q - 1) == -(Range(n) * q) - Range(n);
    } else {
      k := -q;
      assert Range(n) * -q == -(Range(n) * q);
    }
  }

  /** Reducing an intermediate product early does not change the final residue. */
  lemma WrapProduct(v: int, c: int, n: nat)
    requires n > 0
    ensures Wrap(Wrap(v, n) * c, n) == Wrap(v * c, n)
  {
    var k := WrapDifference(v, n);
    assert (v + Range(n) * k) * c == v * c + Range(n) * (k * c);
    WrapCongruent(v * c, k * c, n);
  }

  lemma {:induction false} RangeAdd(a: nat, b: nat)
    ensures Range(a + b) == Range(a) * Range(b)
  {
    if a == 0 {
    } else {
      RangeAdd(a - 1, b);
      assert a + b - 1 == (a - 1) + b;
      MulAssociative(256, Range(a - 1), Range(b));
    }
  }

  lemma HalfMonotone(a: nat, b: nat)
    requires 0 < a <= b
    ensures Half(a) <= Half(b)
  {
    RangeAdd(a, b - a);
    MulMonotone(Range(a), 1, Range(b - a));
  }

  // ------------------------------------------------------------------ bytes

  function ToNat(bs: seq<byte>): nat {
    if bs == [] then 0 else bs[0] + 256 * ToNat(bs[1..])
  }

  lemma {:induction false} ToNatBound(bs: seq<byte>)
    ensures ToNat(bs) < Range(|bs|)
  {
    if bs == [] {
    } else {
      ToNatBound(bs[1..]);
    }
  }

  lemma {:induction false} ToNatConcat(a: seq<byte>, b: seq<byte>)
    ensures ToNat(a + b) == ToNat(a) + Range(|a|) * ToNat(b)
  {
    if a == [] {
      assert a + b == b;
    } else {
      ToNatConcat(a[1..], b);
      assert (a + b)[1..] == a[1..] + b && (a + b)[0] == a[0];
      MulAssociative(256, Range(|a| - 1), ToNat(b));
    }
  }

  /** The value of the bytes as a signed integer. */
  function Signed(bs: seq<byte>): int
    requires bs != []
  {
    AsSigned(ToNat(bs), |bs|)
  }

  lemma SignedIsWrap(bs: seq<byte>)
    requires bs != []
    ensures Signed(bs) == Wrap(ToNat(bs), |bs|)
    ensures Fits(Signed(bs), |bs|)
  {
    ToNatBound(bs);
    QuotientUnique(ToNat(bs), Range(|bs|), 0, ToNat(bs));
  }

  /** The top bit of the last byte is the sign. */
  lemma SignBit(bs: seq<byte>)
    requires bs != []
    ensures bs[|bs| - 1] >= 128 <==> Signed(bs) < 0
  {
    var k := |bs| - 1;
    assert bs == bs[..k] + [bs[k]];
    ToNatConcat(bs[..k], [bs[k]]);
    ToNatBound(bs[..k]);
    ToNatBound(bs);
    assert ToNat([bs[k]]) == bs[k];
    if bs[k] >= 128 {
      MulMonotone(Range(k), 128, bs[k]);
    } else {
      MulMonotone(Range(k), bs[k], 127);
    }
  }

  function FromNat(m: nat, n: nat): (bs: seq<byte>)
    ensures |bs| == n
  {
    if n == 0 then [] else [m % 256] + FromNat(m / 256, n - 1)
  }

  /** The n low bytes of v in two's complement. */
  function FromInt(v: int, n: nat): (bs: seq<byte>)
    ensures |bs| == n
  {
    FromNat(v % Range(n), n)
  }

  lemma {:induction false} ToNatFromNat(m: nat, n: nat)
    requires m < Range(n)
    ensures ToNat(FromNat(m, n)) == m
  {
    if n == 0 {
    } else {
      assert m / 256 < Range(n - 1);
      ToNatFromNat(m / 256, n - 1);
      assert FromNat(m, n)[1..] == FromNat(m / 256, n - 1);
    }
  }

  /** Writing n bytes of v and reading them back gives v wrapped to n bytes. */
  lemma SignedFromInt(v: int, n: nat)
    requires n > 0
    ensures Signed(FromInt(v, n)) == Wrap(v, n)
  {
    ToNatFromNat(v % Range(n), n);
  }

  // ------------------------------------------------------------------ widening and narrowing

  function Repeat(b: byte, n: nat): (s: seq<byte>)
    ensures |s| == n && forall i :: 0 <= i < n ==> s[i] == b
  {
    if n == 0 then [] else [b] + Repeat(b, n - 1)
  }

  lemma {:induction false} ToNatRepeat(n: nat)
    ensures ToNat(Repeat(0, n)) == 0
    ensures ToNat(Repeat(255, n)) == Range(n) - 1
  {
    if n == 0 {
    } else {
      ToNatRepeat(n - 1);
      assert Repeat(0, n)[1..] == Repeat(0, n - 1);
      assert Repeat(255, n)[1..] == Repeat(255, n - 1);
    }
  }

  /** Sign extension: k more bytes, all ones or all zeros after the sign, denote the same value. */
  lemma SignExtension(bs: seq<byte>, k: nat)
    requires bs != []
    ensures var fill: byte := if bs[|bs| - 1] >= 128 then 255 else 0;
            Signed(bs + Repeat(fill, k)) == Signed(bs)
  {
    hide Range, Half, ToNat, Repeat;
    var n := |bs|;
    var fill: byte := if bs[n - 1] >= 128 then 255 else 0;
    SignBit(bs);
    ToNatBound(bs);
    ToNatRepeat(k);
    ToNatConcat(bs, Repeat(fill, k));
    RangeAdd(n, k);
    HalfMonotone(n, n + k);
    MulDistributes(Range(n), Range(k), 1);
  }

  /** Keeping the k low bytes wraps the value to k bytes, so it is exact precisely when the
      value fits. */
  lemma Truncation(bs: seq<byte>, k: nat)
    requires 0 < k <= |bs|
    ensures Signed(bs[..k]) == Wrap(Signed(bs), k)
    ensures Signed(bs[..k]) == Signed(bs) <==> Fits(Signed(bs), k)
  {
    var n := |bs|;
    assert bs == bs[..k] + bs[k..];
    ToNatConcat(bs[..k], bs[k..]);
    RangeAdd(k, n - k);
    SignedIsWrap(bs[..k]);
    var lo, hi := ToNat(bs[..k]), ToNat(bs[k..]);
    if ToNat(bs) >= Half(n) {
      MulDistributes(Range(k), hi, Range(n - k));
      WrapCongruent(lo, hi - Range(n - k), k);
    } else {
      WrapCongruent(lo, hi, k);
    }
  }
}
