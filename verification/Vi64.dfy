/** Variable-length 64-bit integers: seven bits a byte, low bits first, the high bit set on every
    byte but the last. */
module Vi64 {
  import opened Arithmetic
  import opened Buffers
  import opened Errors
  import opened ObjCompare
  import opened ObjCast
  import opened TwosComplement

  const TWO64: int := 0x1_0000_0000_0000_0000

  function Pow2(n: nat): (p: int)
    ensures p > 0
  {
    if n == 0 then 1 else 2 * Pow2(n - 1)
  }

  lemma Pow2Seven(n: nat)
    ensures Pow2(n + 7) == 128 * Pow2(n)
  {
    assert Pow2(n + 7) == 2 * Pow2(n + 6) == 4 * Pow2(n + 5) == 8 * Pow2(n + 4);
    assert Pow2(n + 4) == 2 * Pow2(n + 3) == 4 * Pow2(n + 2) == 8 * Pow2(n + 1) == 16 * Pow2(n);
  }

  // ------------------------------------------------------------------ the encoding

  function Encoding(v: nat): (r: seq<byte>)
    ensures |r| > 0
  {
    if v <= 0x7f then [v] else [v % 128 + 128] + Encoding(v / 128)
  }

  /** The format: seven bits a byte from the lowest up, the high bit on every byte but the last, and no
      byte more than the value needs. */
  lemma {:induction false} EncodingBytes(v: nat)
    ensures var s := Encoding(v);
            && (forall i :: 0 <= i < |s| ==> s[i] == Group(v, i) + (if i < |s| - 1 then 128 else 0))
            && v < Pow2(7 * |s|) && (v > 0 ==> v >= Pow2(7 * (|s| - 1)))
  {
    hide Pow2, Group;
    GroupNext(v, 0);
    Pow2Seven(0);
    if v > 0x7f {
      var w, s := v / 128, Encoding(v);
      EncodingBytes(w);
      assert s[1..] == Encoding(w);
      forall i | 0 <= i < |s| ensures s[i] == Group(v, i) + (if i < |s| - 1 then 128 else 0) {
        if i > 0 {
          assert s[i] == s[1..][i - 1];
          GroupNext(v, i - 1);
        }
      }
      BoundsNext(v, |s| - 1);
    }
  }

  /** Bits 7i to 7i + 6 of v. */
  function Group(v: nat, i: nat): int {
    (v / Pow2(7 * i)) % 128
  }

  lemma GroupNext(v: nat, i: nat)
    ensures Pow2(0) == 1 && Group(v, 0) == v % 128
    ensures v >= 0 && v / 128 >= 0 && Group(v, i + 1) == Group(v / 128, i)
  {
    Pow2Seven(7 * i);
    assert 7 * (i + 1) == 7 * i + 7;
    DivDiv(v, 128, Pow2(7 * i));
    QuotientUnique(v, 1, v, 0);
  }

  lemma BoundsNext(v: nat, k: nat)
    requires k > 0 && Pow2(7 * (k - 1)) <= v / 128 < Pow2(7 * k)
    ensures Pow2(7 * k) <= v < Pow2(7 * (k + 1))
  {
    hide Pow2;
    Pow2Seven(7 * (k - 1));
    Pow2Seven(7 * k);
    assert 7 * (k - 1) + 7 == 7 * k && 7 * k + 7 == 7 * (k + 1);
  }

  /** encoded_length_vi64: a chain of thresholds. */
  function EncodedLength(val: int64): int {
    var v := ToUInt64(val);
    if v <= 0x7f then 1
    else if v <= 0x3fff then 2
    else if v <= 0x1f_ffff then 3
    else if v <= 0xfff_ffff then 4
    else if v <= 0x7_ffff_ffff then 5
    else if v <= 0x3ff_ffff_ffff then 6
    else if v <= 0x1_ffff_ffff_ffff then 7
    else if v <= 0xff_ffff_ffff_ffff then 8
    else if v <= 0x7fff_ffff_ffff_ffff then 9
    else 10
  }

  /** One more byte for every further seven bits. */
  lemma EncodingLength(k: nat, top: nat)
    requires k > 0 && |Encoding(top)| == k && |Encoding(top + 1)| == k + 1
    ensures |Encoding(128 * top + 127)| == k + 1 && |Encoding(128 * top + 128)| == k + 2
  {
    assert (128 * top + 127) / 128 == top && (128 * top + 128) / 128 == top + 1;
  }

  lemma {:induction false} EncodingMonotone(v: nat, w: nat)
    requires v <= w
    ensures |Encoding(v)| <= |Encoding(w)|
  {
    if v > 0x7f {
      EncodingMonotone(v / 128, w / 128);
    }
  }

  lemma LengthBetween(v: nat, lo: nat, hi: nat, k: nat)
    requires lo <= v <= hi && |Encoding(lo)| == k == |Encoding(hi)|
    ensures |Encoding(v)| == k
  {
    EncodingMonotone(lo, v);
    EncodingMonotone(v, hi);
  }

  /** The thresholds are exactly where the encoding grows. */
  lemma EncodedLengthIs(val: int64)
    ensures EncodedLength(val) == |Encoding(ToUInt64(val))|
  {
    hide Encoding;
    var v := ToUInt64(val);
    SmallLengths();
    EncodingLength(1, 0x7f);
    EncodingLength(2, 0x3fff);
    EncodingLength(3, 0x1f_ffff);
    EncodingLength(4, 0xfff_ffff);
    EncodingLength(5, 0x7_ffff_ffff);
    EncodingLength(6, 0x3ff_ffff_ffff);
    EncodingLength(7, 0x1_ffff_ffff_ffff);
    EncodingLength(8, 0xff_ffff_ffff_ffff);
    EncodingLength(9, 0x7fff_ffff_ffff_ffff);
    if v <= 0x7f { LengthBetween(v, 0, 0x7f, 1); }
    else if v <= 0x3fff { LengthBetween(v, 0x80, 0x3fff, 2); }
    else if v <= 0x1f_ffff { LengthBetween(v, 0x4000, 0x1f_ffff, 3); }
    else if v <= 0xfff_ffff { LengthBetween(v, 0x20_0000, 0xfff_ffff, 4); }
    else if v <= 0x7_ffff_ffff { LengthBetween(v, 0x1000_0000, 0x7_ffff_ffff, 5); }
    else if v <= 0x3ff_ffff_ffff { LengthBetween(v, 0x8_0000_0000, 0x3ff_ffff_ffff, 6); }
    else if v <= 0x1_ffff_ffff_ffff { LengthBetween(v, 0x400_0000_0000, 0x1_ffff_ffff_ffff, 7); }
    else if v <= 0xff_ffff_ffff_ffff { LengthBetween(v, 0x2_0000_0000_0000, 0xff_ffff_ffff_ffff, 8); }
    else if v <= 0x7fff_ffff_ffff_ffff { LengthBetween(v, 0x100_0000_0000_0000, 0x7fff_ffff_ffff_ffff, 9); }
    else { LengthBetween(v, 0x8000_0000_0000_0000, 0x3f_ffff_ffff_ffff_ffff, 10); }
  }

  lemma SmallLengths()
    ensures |Encoding(0)| == 1 == |Encoding(0x7f)| && |Encoding(0x80)| == 2
  {
  }

  lemma EncodingStep(v: nat)
    ensures Encoding(v) == if v <= 0x7f then [v] else [v % 128 + 128] + Encoding(v / 128)
  {
  }

  /** now is was with done written at pos. */
  ghost predicate PutSoFar(was: seq<byte>, now: seq<byte>, pos: nat, done: seq<byte>) {
    pos + |done| <= |was| && now == was[..pos] + done + was[pos + |done|..]
  }

  lemma PutNothing(was: seq<byte>, pos: nat)
    requires pos <= |was|
    ensures PutSoFar(was, was, pos, [])
  {
  }

  lemma PutByte(was: seq<byte>, now: seq<byte>, pos: nat, done: seq<byte>, b: byte)
    requires PutSoFar(was, now, pos, done) && pos + |done| < |was|
    ensures |now| == |was| && PutSoFar(was, now[pos + |done| := b], pos, done + [b])
  {
  }

  /** The loop of encode_vi64, once there is room. */
  method PutVi64(buf: array<byte>, pos: nat, val: nat) returns (pos': nat)
    requires pos + |Encoding(val)| <= buf.Length
    modifies buf
    ensures pos' == pos + |Encoding(val)|
    ensures PutSoFar(old(buf[..]), buf[..], pos, Encoding(val))
  {
    hide Encoding, PutSoFar;
    var v := val;
    pos' := pos;
    ghost var was, done: seq<byte> := buf[..], [];
    PutNothing(was, pos);
    while v > 0x7f
      invariant pos' == pos + |done| && done + Encoding(v) == Encoding(val)
      invariant PutSoFar(was, buf[..], pos, done)
      decreases v
    {
      EncodingStep(v);
      PutByte(was, buf[..], pos, done, v % 128 + 128);
      ghost var now := buf[..];
      buf[pos'] := v % 128 + 128;
      assert buf[..] == now[pos' := v % 128 + 128];
      pos' := pos' + 1;
      done := done + [v % 128 + 128];
      v := v / 128;
    }
    EncodingStep(v);
    PutByte(was, buf[..], pos, done, v);
    ghost var now := buf[..];
    buf[pos'] := v;
    assert buf[..] == now[pos' := v];
    pos' := pos' + 1;
  }

  lemma PutIs(was: seq<byte>, now: seq<byte>, pos: nat, t: seq<byte>)
    requires PutSoFar(was, now, pos, t)
    ensures Untouched(was, now, pos, pos + |t|) && Stands(now, pos, t)
  {
  }

  /** encode_vi64. */
  method EncodeVi64(buf: array<byte>, bufLen: nat, pos: nat, val: int64) returns (ret: ObRet, pos': nat)
    requires bufLen <= buf.Length
    modifies buf
    ensures ret == (if bufLen - pos >= |Encoding(ToUInt64(val))| then Success else SizeOverflow)
    ensures ret == Success ==>
              && pos' == pos + |Encoding(ToUInt64(val))|
              && Untouched(old(buf[..]), buf[..], pos, pos')
              && Stands(buf[..], pos, Encoding(ToUInt64(val)))
    ensures ret != Success ==> pos' == pos && buf[..] == old(buf[..])
  {
    hide EncodedLength, Encoding, ToUInt64, Untouched, Stands, PutSoFar;
    pos' := pos;
    EncodedLengthIs(val);
    ret := if bufLen - pos >= EncodedLength(val) then Success else SizeOverflow;
    if ret == Success {
      ghost var was := buf[..];
      pos' := PutVi64(buf, pos, ToUInt64(val));
      PutIs(was, buf[..], pos, Encoding(ToUInt64(val)));
    }
  }

  // ------------------------------------------------------------------ decoding

  /** The integer read from position p on, each byte weighted by its shift and ored into acc; ored bits
      are distinct, so or is addition. None when the text ends inside the integer. */
  function DecodeFrom(s: seq<byte>, p: nat, shift: nat, acc: nat): (r: Option<(uint64, nat)>)
    ensures r.Some? ==> p < r.value.1 <= |s|
    decreases |s| - p
  {
    if p >= |s| then None
    else
      var v := (acc + s[p] % 128 * Pow2(shift)) % TWO64;
      if s[p] >= 128 then DecodeFrom(s, p + 1, shift + 7, v) else Some((v, p + 1))
  }

  function Decode(s: seq<byte>, p: nat): Option<(uint64, nat)> {
    DecodeFrom(s, p, 0, 0)
  }

  /** decode_vi64. Each step looks at the next byte before it checks the length; past is the byte that
      lies after the data, and it does not matter. */
  method DecodeVi64(buf: seq<byte>, dataLen: nat, pos: nat, past: byte) returns (ret: ObRet, pos': nat, val: int64)
    requires dataLen <= |buf|
    ensures ret == (if Decode(buf[..dataLen], pos).Some? then Success else DeserializeError)
    ensures ret == Success ==> (ToUInt64(val), pos') == Decode(buf[..dataLen], pos).value
    ensures ret != Success ==> pos' == pos
  {
    hide Pow2;
    var v: nat := 0;
    var shift: nat := 0;
    var tmpPos := pos;
    ret, pos', val := Success, pos, 0;
    ghost var data := buf[..dataLen];
    var next := if tmpPos < dataLen then buf[tmpPos] else past;
    while ret == Success && next >= 128
      invariant next == if tmpPos < dataLen then buf[tmpPos] else past
      invariant Decode(data, pos) == if ret == Success then DecodeFrom(data, tmpPos, shift, v) else None
      decreases dataLen - tmpPos, ret == Success
    {
      if dataLen - tmpPos < 1 {
        ret := DeserializeError;
        break;
      }
      v := (v + next % 128 * Pow2(shift)) % TWO64;
      tmpPos := tmpPos + 1;
      shift := shift + 7;
      next := if tmpPos < dataLen then buf[tmpPos] else past;
    }
    if ret == Success {
      if dataLen - tmpPos < 1 {
        ret := DeserializeError;
      } else {
        v := (v + next % 128 * Pow2(shift)) % TWO64;
        tmpPos := tmpPos + 1;
        val := ToInt64(v);
        pos' := tmpPos;
      }
    }
  }

  lemma {:induction false} DecodeEncoding(s: seq<byte>, p: nat, shift: nat, acc: nat, v: nat)
    requires Stands(s, p, Encoding(v)) && acc < Pow2(shift) && acc + v * Pow2(shift) < TWO64
    ensures DecodeFrom(s, p, shift, acc) == Some((acc + v * Pow2(shift), p + |Encoding(v)|))
    decreases v
  {
    hide Pow2, Stands, Encoding;
    EncodingStep(v);
    var w := Pow2(shift);
    StandsFirst(s, p, Encoding(v));
    if v > 0x7f {
      StandsParts(s, p, [v % 128 + 128], Encoding(v / 128));
      Pow2Seven(shift);
      SevenBits(v, w);
      DecodeEncoding(s, p + 1, shift + 7, acc + v % 128 * w, v / 128);
      ModSmall(v, acc + v % 128 * w);
    } else {
      ModSmall(v, acc + v * w);
    }
  }

  lemma ModSmall(v: nat, x: int)
    requires 0 <= x < TWO64
    ensures x % TWO64 == x
    ensures (v % 128 + 128) % 128 == v % 128
  {
  }

  /** The low seven bits of v and the rest, both weighted by w. */
  lemma SevenBits(v: nat, w: nat)
    ensures v * w == (v / 128) * (128 * w) + v % 128 * w
    ensures 0 <= v % 128 * w <= 127 * w && (v / 128) * (128 * w) >= 0
  {
    MulMonotone(w, 0, v % 128);
    MulMonotone(w, v % 128, 127);
    assert v == 128 * (v / 128) + v % 128;
    MulMonotone(128 * w, 0, v / 128);
  }

  /** Decoding what was encoded returns the value, and the position after it. */
  lemma DecodeEncoded(s: seq<byte>, p: nat, val: int64)
    requires Stands(s, p, Encoding(ToUInt64(val)))
    ensures Decode(s, p) == Some((ToUInt64(val), p + |Encoding(ToUInt64(val))|))
    ensures ToInt64(ToUInt64(val)) == val
  {
    DecodeEncoding(s, p, 0, 0, ToUInt64(val));
  }
}
