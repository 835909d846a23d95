/** Record headers: a 16-bit checksum that exclusive-ors the fields in 16-bit lanes, the big-endian
    form of the version 1 header, and the check that accepts a record. */
module RecordHeader {
  import opened Arithmetic
  import opened Errors

  // ------------------------------------------------------------------ exclusive or

  function Xor(a: bv16, b: bv16): bv16 {
    a ^ b
  }

  lemma XorSwap(a: bv16, d: bv16, x: bv16)
    ensures Xor(Xor(a, d), x) == Xor(Xor(a, x), d)
  {
  }

  lemma XorAssociative(a: bv16, b: bv16, c: bv16)
    ensures Xor(a, Xor(b, c)) == Xor(Xor(a, b), c)
  {
  }

  lemma XorReplace(a: bv16, x: bv16, y: bv16)
    ensures Xor(a, y) == Xor(Xor(a, x), Xor(x, y))
  {
    hide Xor;
    XorAssociative(Xor(a, x), x, y);
    XorAssociative(a, x, x);
    XorZero(x);
    XorZero(a);
  }

  lemma XorZero(a: bv16)
    ensures Xor(a, 0) == a && Xor(0, a) == a && Xor(a, a) == 0
  {
  }

  lemma XorCancel(a: bv16, d: bv16)
    ensures Xor(a, d) == a <==> d == 0
  {
  }

  /** The running checksum after the given lanes. */
  function Fold(acc: bv16, lanes: seq<bv16>): bv16
    decreases |lanes|
  {
    if lanes == [] then acc else Fold(Xor(acc, lanes[0]), lanes[1..])
  }

  lemma {:induction false} FoldAppend(acc: bv16, a: seq<bv16>, b: seq<bv16>)
    ensures Fold(acc, a + b) == Fold(Fold(acc, a), b)
    decreases |a|
  {
    hide Xor;
    if a == [] {
      assert a + b == b;
    } else {
      FoldAppend(Xor(acc, a[0]), a[1..], b);
      assert (a + b)[1..] == a[1..] + b;
    }
  }

  lemma {:induction false} FoldShift(acc: bv16, d: bv16, lanes: seq<bv16>)
    ensures Fold(Xor(acc, d), lanes) == Xor(Fold(acc, lanes), d)
    decreases |lanes|
  {
    hide Xor;
    if lanes != [] {
      XorSwap(acc, d, lanes[0]);
      FoldShift(Xor(acc, lanes[0]), d, lanes[1..]);
    }
  }

  /** Replacing one lane shifts the checksum by the difference of the two lanes. */
  lemma {:induction false} FoldUpdate(acc: bv16, lanes: seq<bv16>, i: nat, x: bv16)
    requires i < |lanes|
    ensures Fold(acc, lanes[i := x]) == Xor(Fold(acc, lanes), Xor(lanes[i], x))
    decreases i
  {
    hide Xor;
    if i == 0 {
      assert lanes[0 := x][1..] == lanes[1..];
      XorReplace(acc, lanes[0], x);
      FoldShift(Xor(acc, lanes[0]), Xor(lanes[0], x), lanes[1..]);
    } else {
      assert lanes[i := x][1..] == lanes[1..][i - 1 := x];
      FoldUpdate(Xor(acc, lanes[0]), lanes[1..], i - 1, x);
    }
  }

  /** Lists of lanes that differ in exactly one place have different checksums. */
  lemma OneLaneShows(lanes: seq<bv16>, i: nat, x: bv16)
    requires i < |lanes| && x != lanes[i]
    ensures Fold(0, lanes[i := x]) != Fold(0, lanes)
  {
    hide Fold;
    FoldUpdate(0, lanes, i, x);
    XorCancel(Fold(0, lanes), Xor(lanes[i], x));
  }

  /** Storing the checksum taken over a zero lane into that lane makes the total zero. */
  lemma StoredChecksum(lanes: seq<bv16>, i: nat)
    requires i < |lanes| && lanes[i] == 0
    ensures Fold(0, lanes[i := Fold(0, lanes)]) == 0
  {
    hide Fold, Xor;
    var c := Fold(0, lanes);
    FoldUpdate(0, lanes, i, c);
    XorZero(c);
  }

  // ------------------------------------------------------------------ lanes

  /** (value >> i * 16) & 0xFFFF. */
  function Lane64(value: bv64, i: nat): bv16
    requires i < 4
  {
    (if i == 0 then value & 0xFFFF
     else if i == 1 then (value >> 16) & 0xFFFF
     else if i == 2 then (value >> 32) & 0xFFFF
     else (value >> 48) & 0xFFFF) as bv16
  }

  function Lane32(value: bv32, i: nat): bv16
    requires i < 2
  {
    (if i == 0 then value & 0xFFFF else (value >> 16) & 0xFFFF) as bv16
  }

  function Lanes64(value: bv64): (r: seq<bv16>)
    ensures |r| == 4
  {
    [Lane64(value, 0), Lane64(value, 1), Lane64(value, 2), Lane64(value, 3)]
  }

  function Lanes32(value: bv32): (r: seq<bv16>)
    ensures |r| == 2
  {
    [Lane32(value, 0), Lane32(value, 1)]
  }

  /** A 16-bit field sign-extended to 64 bits, and an 8-bit field to 16. */
  function Extend16(value: bv16): bv64 {
    if value >= 0x8000 then (value as bv64) | 0xFFFF_FFFF_FFFF_0000 else value as bv64
  }

  function Extend8(value: bv8): bv16 {
    if value >= 0x80 then (value as bv16) | 0xFF00 else value as bv16
  }

  lemma Lanes64Determine(v: bv64, w: bv64)
    requires Lanes64(v) == Lanes64(w)
    ensures v == w
  {
    assert Lanes64(v)[0] == Lanes64(w)[0] && Lanes64(v)[1] == Lanes64(w)[1];
    assert Lanes64(v)[2] == Lanes64(w)[2] && Lanes64(v)[3] == Lanes64(w)[3];
  }

  lemma Extend8Injective(v: bv8, w: bv8)
    requires Extend8(v) == Extend8(w)
    ensures v == w
  {
  }

  lemma FoldNone(acc: bv16)
    ensures Fold(acc, []) == acc
  {
  }

  lemma FoldNext(acc: bv16, lanes: seq<bv16>, i: nat)
    requires i < |lanes|
    ensures Fold(acc, lanes[..i + 1]) == Xor(Fold(acc, lanes[..i]), lanes[i])
  {
    hide Xor;
    FoldAppend(acc, lanes[..i], [lanes[i]]);
    assert lanes[..i + 1] == lanes[..i] + [lanes[i]];
  }

  /** format_i64: folds the four lanes into the running checksum. */
  method FormatI64(value: bv64, checkSum: bv16) returns (r: bv16)
    ensures r == Fold(checkSum, Lanes64(value))
  {
    hide Lane64, Xor;
    r := checkSum;
    var i: nat := 0;
    ghost var lanes := Lanes64(value);
    while i < 4
      invariant i <= 4
      invariant r == Fold(checkSum, lanes[..i])
    {
      FoldNext(checkSum, lanes, i);
      r := Xor(r, Lane64(value, i));
      i := i + 1;
    }
    assert lanes[..4] == lanes;
  }

  /** format_i32. */
  method FormatI32(value: bv32, checkSum: bv16) returns (r: bv16)
    ensures r == Fold(checkSum, Lanes32(value))
  {
    hide Lane32, Xor;
    r := checkSum;
    var i: nat := 0;
    ghost var lanes := Lanes32(value);
    while i < 2
      invariant i <= 2
      invariant r == Fold(checkSum, lanes[..i])
    {
      FoldNext(checkSum, lanes, i);
      r := Xor(r, Lane32(value, i));
      i := i + 1;
    }
    assert lanes[..2] == lanes;
  }

  lemma FoldFive(acc: bv16, s: seq<bv16>)
    requires |s| == 5
    ensures Fold(acc, s) == Xor(Xor(Xor(Xor(Xor(acc, s[0]), s[1]), s[2]), s[3]), s[4])
  {
    hide Xor, Fold;
    FoldNone(acc);
    FoldNext(acc, s, 0);
    FoldNext(acc, s, 1);
    FoldNext(acc, s, 2);
    FoldNext(acc, s, 3);
    FoldNext(acc, s, 4);
    assert s[..0] == [] && s[..5] == s;
  }

  // ------------------------------------------------------------------ version 2

  /** The fields of a version 2 header. */
  datatype V2 = V2(magic: bv16, headerLength: bv8, version: bv8, headerChecksum: bv16, reserved16: bv16,
                   dataLength: bv64, dataZlength: bv64, dataChecksum: bv64)

  /** The lanes its checksum covers. */
  function LanesV2(h: V2): seq<bv16> {
    [h.magic, Extend8(h.headerLength), Extend8(h.version), h.headerChecksum, h.reserved16]
    + (Lanes64(h.dataLength) + (Lanes64(h.dataZlength) + Lanes64(h.dataChecksum)))
  }

  lemma FoldLanesV2(h: V2)
    ensures var head := Xor(Xor(Xor(Xor(Xor(0, h.magic), Extend8(h.headerLength)), Extend8(h.version)),
                                h.headerChecksum), h.reserved16);
            Fold(0, LanesV2(h))
            == Fold(Fold(Fold(head, Lanes64(h.dataLength)), Lanes64(h.dataZlength)), Lanes64(h.dataChecksum))
  {
    hide Lanes64, Extend8, Xor, Fold;
    var a, b, c := Lanes64(h.dataLength), Lanes64(h.dataZlength), Lanes64(h.dataChecksum);
    var head := [h.magic, Extend8(h.headerLength), Extend8(h.version), h.headerChecksum, h.reserved16];
    FoldAppend(0, head, a + (b + c));
    FoldAppend(Fold(0, head), a, b + c);
    FoldAppend(Fold(Fold(0, head), a), b, c);
    FoldFive(0, head);
  }

  class ObRecordHeaderV2 {
    var magic: bv16
    var headerLength: bv8
    var version: bv8
    var headerChecksum: bv16
    var reserved16: bv16
    var dataLength: bv64
    var dataZlength: bv64
    var dataChecksum: bv64

    function Fields(): V2
      reads this
    {
      V2(magic, headerLength, version, headerChecksum, reserved16, dataLength, dataZlength, dataChecksum)
    }

    /** set_header_checksum. */
    method SetHeaderChecksum()
      modifies `headerChecksum
      ensures headerChecksum == Fold(0, LanesV2(old(Fields()).(headerChecksum := 0)))
      ensures Fold(0, LanesV2(Fields())) == 0
    {
      hide Lanes64, Extend8, Xor, Fold;
      headerChecksum := 0;
      var checksum: bv16 := 0;
      checksum := Xor(checksum, magic);
      checksum := Xor(checksum, Extend8(headerLength));
      checksum := Xor(checksum, Extend8(version));
      XorZero(checksum);
      checksum := Xor(checksum, reserved16);
      checksum := FormatI64(dataLength, checksum);
      checksum := FormatI64(dataZlength, checksum);
      checksum := FormatI64(dataChecksum, checksum);
      FoldLanesV2(Fields());
      StoredChecksum(LanesV2(Fields()), 3);
      ghost var was := LanesV2(Fields());
      headerChecksum := checksum;
      assert LanesV2(Fields()) == was[3 := checksum];
    }

    /** check_header_checksum. */
    method CheckHeaderChecksum() returns (ret: ObRet)
      ensures ret == (if Fold(0, LanesV2(Fields())) == 0 then Success else ChecksumError)
    {
      hide Lanes64, Extend8, Xor, Fold, LanesV2;
      ret := Success;
      var checksum: bv16 := 0;
      checksum := Xor(checksum, magic);
      checksum := Xor(checksum, Extend8(headerLength));
      checksum := Xor(checksum, Extend8(version));
      checksum := Xor(checksum, headerChecksum);
      checksum := Xor(checksum, reserved16);
      checksum := FormatI64(dataLength, checksum);
      checksum := FormatI64(dataZlength, checksum);
      checksum := FormatI64(dataChecksum, checksum);
      FoldLanesV2(Fields());
      if 0 != checksum {
        ret := ChecksumError;
      }
    }

    /** check_payload_checksum. */
    method CheckPayloadChecksum(payload: seq<bv8>, crc: seq<bv8> -> bv64) returns (ret: ObRet)
      ensures ret == Success <==> DescribesV2(Fields(), payload, crc)
      ensures ret == InvalidArgument <==> MismatchV2(Fields(), payload)
      ensures ret == InvalidArgument <==>
                Int64(dataZlength) != |payload| || (payload == [] && (dataLength != 0 || dataChecksum != 0))
      ensures ret == ChecksumError <==> !MismatchV2(Fields(), payload) && crc(payload) != dataChecksum
      ensures ret == Success || ret == InvalidArgument || ret == ChecksumError
    {
      ret := Success;
      if 0 == |payload| && (0 != dataZlength || 0 != dataLength || 0 != dataChecksum) {
        ret := InvalidArgument;
      } else if Int64(dataZlength) != |payload| {
        ret := InvalidArgument;
      } else {
        var sum := crc(payload);
        if sum != dataChecksum {
          ret := ChecksumError;
        }
      }
    }

    /** The copy of 32 bytes of memory over the header. */
    method CopyFrom(s: seq<bv8>)
      requires |s| == HEADER_LENGTH
      modifies this
      ensures Fields() == ParseV2(s)
    {
      hide FromLe16, FromLe64;
      magic, headerLength, version := FromLe16(s[0..2]), s[2], s[3];
      headerChecksum, reserved16 := FromLe16(s[4..6]), FromLe16(s[6..8]);
      dataLength, dataZlength, dataChecksum := FromLe64(s[8..16]), FromLe64(s[16..24]), FromLe64(s[24..32]);
    }

    /** check_record. */
    static method CheckRecord(data: seq<bv8>, magic: bv16, header: ObRecordHeaderV2, crc: seq<bv8> -> bv64)
        returns (ret: ObRet, payload: seq<bv8>)
      modifies header
      ensures ret == Success <==> SoundV2(data, magic, crc)
      ensures Int16(magic) >= 0 && |data| >= HEADER_LENGTH ==>
                payload == data[HEADER_LENGTH..] && header.Fields() == ParseV2(data)
      ensures Int16(magic) < 0 || |data| < HEADER_LENGTH ==> payload == [] && header.Fields() == old(header.Fields())
      ensures ret == BufNotEnough <==> Int16(magic) >= 0 && |data| < HEADER_LENGTH
      ensures ret == InvalidData <==>
                && Int16(magic) >= 0 && |data| >= HEADER_LENGTH
                && (ParseV2(data).magic != magic || ParseV2(data).version != HEADER_VERSION)
      ensures ret == InvalidArgument <==>
                || Int16(magic) < 0
                || (&& RecognizedV2(data, magic) && Fold(0, LanesV2(ParseV2(data))) == 0
                    && MismatchV2(ParseV2(data), data[HEADER_LENGTH..]))
      ensures ret == ChecksumError <==>
                && RecognizedV2(data, magic)
                && (|| Fold(0, LanesV2(ParseV2(data))) != 0
                    || (&& !MismatchV2(ParseV2(data), data[HEADER_LENGTH..])
                        && crc(data[HEADER_LENGTH..]) != ParseV2(data).dataChecksum))
      ensures ret in {Success, BufNotEnough, InvalidData, InvalidArgument, ChecksumError}
    {
      hide Fold, LanesV2, FromLe16, FromLe64, Int16, Int64;
      ret, payload := Success, [];
      if Int16(magic) < 0 {
        ret := InvalidArgument;
      } else if HEADER_LENGTH > |data| {
        ret := BufNotEnough;
      } else {
        header.CopyFrom(data[..HEADER_LENGTH]);
        ParseV2Prefix(data);
        payload := data[HEADER_LENGTH..];
      }
      if ret == Success {
        if magic != header.magic {
          ret := InvalidData;
        } else if HEADER_VERSION != header.version {
          ret := InvalidData;
        } else {
          ret := header.CheckHeaderChecksum();
          if ret == Success {
            ret := header.CheckPayloadChecksum(payload, crc);
          }
        }
      }
    }
  }

  /** The lanes determine the header: every bit of it is covered. */
  lemma LanesV2Determine(g: V2, h: V2)
    requires LanesV2(g) == LanesV2(h)
    ensures g == h
  {
    hide Lanes64, Extend8, LanesV2;
    LanesV2Parts(g);
    LanesV2Parts(h);
    Lanes64Determine(g.dataLength, h.dataLength);
    Lanes64Determine(g.dataZlength, h.dataZlength);
    Lanes64Determine(g.dataChecksum, h.dataChecksum);
    Extend8Injective(g.headerLength, h.headerLength);
    Extend8Injective(g.version, h.version);
  }

  lemma LanesV2Parts(h: V2)
    ensures var s := LanesV2(h);
            && |s| == 17 && s[0] == h.magic && s[1] == Extend8(h.headerLength) && s[2] == Extend8(h.version)
            && s[3] == h.headerChecksum && s[4] == h.reserved16
            && s[5..9] == Lanes64(h.dataLength) && s[9..13] == Lanes64(h.dataZlength)
            && s[13..] == Lanes64(h.dataChecksum)
  {
    hide Lanes64, Extend8;
  }

  /** A header that passes its check fails it after any change confined to one lane. */
  lemma OneLaneChangeFails(g: V2, h: V2, i: nat)
    requires Fold(0, LanesV2(g)) == 0
    requires i < |LanesV2(g)| == |LanesV2(h)| && LanesV2(h) == LanesV2(g)[i := LanesV2(h)[i]] && g != h
    ensures Fold(0, LanesV2(h)) != 0
  {
    hide LanesV2, Fold;
    if LanesV2(h)[i] == LanesV2(g)[i] {
      LanesV2Determine(g, h);
    } else {
      OneLaneShows(LanesV2(g), i, LanesV2(h)[i]);
    }
  }

  // ------------------------------------------------------------------ version 1

  /** The fields of a version 1 header. */
  datatype V1 = V1(magic: bv16, headerLength: bv16, version: bv16, headerChecksum: bv16, timestamp: bv64,
                   dataLength: bv32, dataZlength: bv32, dataChecksum: bv64)

  /** The lanes its checksum covers: the magic number sign-extended, the time stamp by its low lane only. */
  function LanesV1(h: V1): seq<bv16> {
    Lanes64(Extend16(h.magic))
    + ([h.headerLength, h.version, h.headerChecksum, Lane64(h.timestamp, 0)]
       + (Lanes32(h.dataLength) + (Lanes32(h.dataZlength) + Lanes64(h.dataChecksum))))
  }

  lemma FoldFour(acc: bv16, s: seq<bv16>)
    requires |s| == 4
    ensures Fold(acc, s) == Xor(Xor(Xor(Xor(acc, s[0]), s[1]), s[2]), s[3])
  {
    hide Xor, Fold;
    FoldNone(acc);
    FoldNext(acc, s, 0);
    FoldNext(acc, s, 1);
    FoldNext(acc, s, 2);
    FoldNext(acc, s, 3);
    assert s[..0] == [] && s[..4] == s;
  }

  lemma FoldLanesV1(h: V1)
    ensures var head := Fold(0, Lanes64(Extend16(h.magic)));
            var mid := Xor(Xor(Xor(Xor(head, h.headerLength), h.version), h.headerChecksum), Lane64(h.timestamp, 0));
            Fold(0, LanesV1(h))
            == Fold(Fold(Fold(mid, Lanes32(h.dataLength)), Lanes32(h.dataZlength)), Lanes64(h.dataChecksum))
  {
    hide Lanes64, Lanes32, Lane64, Extend16, Xor, Fold;
    var m, a := Lanes64(Extend16(h.magic)), Lanes32(h.dataLength);
    var b, c := Lanes32(h.dataZlength), Lanes64(h.dataChecksum);
    var mid := [h.headerLength, h.version, h.headerChecksum, Lane64(h.timestamp, 0)];
    FoldAppend(0, m, mid + (a + (b + c)));
    FoldAppend(Fold(0, m), mid, a + (b + c));
    FoldAppend(Fold(Fold(0, m), mid), a, b + c);
    FoldAppend(Fold(Fold(Fold(0, m), mid), a), b, c);
    FoldFour(Fold(0, m), mid);
  }

  lemma LanesV1Parts(h: V1)
    ensures var s := LanesV1(h);
            && |s| == 16 && s[0..4] == Lanes64(Extend16(h.magic)) && s[4] == h.headerLength && s[5] == h.version
            && s[6] == h.headerChecksum && s[7] == Lane64(h.timestamp, 0)
            && s[8..10] == Lanes32(h.dataLength) && s[10..12] == Lanes32(h.dataZlength)
            && s[12..] == Lanes64(h.dataChecksum)
  {
    hide Lanes64, Lanes32, Lane64, Extend16;
  }

  lemma Lanes32Determine(v: bv32, w: bv32)
    requires Lanes32(v) == Lanes32(w)
    ensures v == w
  {
    assert Lanes32(v)[0] == Lanes32(w)[0] && Lanes32(v)[1] == Lanes32(w)[1];
  }

  /** Equal in every field, except above the low 16 bits of the time stamp. */
  predicate CoveredAlikeV1(g: V1, h: V1) {
    g.(timestamp := h.timestamp) == h && Lane64(g.timestamp, 0) == Lane64(h.timestamp, 0)
  }

  /** The lanes determine the header but for the upper 48 bits of its time stamp. */
  lemma LanesV1DetermineIff(g: V1, h: V1)
    ensures LanesV1(g) == LanesV1(h) <==> CoveredAlikeV1(g, h)
  {
    hide Lanes64, Lanes32, Lane64, Extend16, LanesV1;
    LanesV1Parts(g);
    LanesV1Parts(h);
    if LanesV1(g) == LanesV1(h) {
      ExtendedLanes(g.magic);
      ExtendedLanes(h.magic);
      Lanes64Determine(Extend16(g.magic), Extend16(h.magic));
      Lanes32Determine(g.dataLength, h.dataLength);
      Lanes32Determine(g.dataZlength, h.dataZlength);
      Lanes64Determine(g.dataChecksum, h.dataChecksum);
    }
    if CoveredAlikeV1(g, h) {
      SameParts(LanesV1(g), LanesV1(h));
    }
  }

  lemma SameParts(s: seq<bv16>, t: seq<bv16>)
    requires |s| == |t| == 16 && s[0..4] == t[0..4] && s[4] == t[4] && s[5] == t[5] && s[6] == t[6] && s[7] == t[7]
    requires s[8..10] == t[8..10] && s[10..12] == t[10..12] && s[12..] == t[12..]
    ensures s == t
  {
    assert s == s[0..4] + [s[4], s[5], s[6], s[7]] + s[8..10] + s[10..12] + s[12..];
    assert t == t[0..4] + [t[4], t[5], t[6], t[7]] + t[8..10] + t[10..12] + t[12..];
  }

  /** A version 1 header that passes its check fails it after any change confined to one lane. */
  lemma OneLaneChangeFailsV1(g: V1, h: V1, i: nat)
    requires Fold(0, LanesV1(g)) == 0 && !CoveredAlikeV1(g, h)
    requires i < |LanesV1(g)| == |LanesV1(h)| && LanesV1(h) == LanesV1(g)[i := LanesV1(h)[i]]
    ensures Fold(0, LanesV1(h)) != 0
  {
    hide LanesV1, Fold, CoveredAlikeV1;
    LanesV1DetermineIff(g, h);
    OneLaneShows(LanesV1(g), i, LanesV1(h)[i]);
  }

  /** A change of the time stamp alone shows exactly when it changes the low 16 bits. */
  lemma TimestampChangeShowsIff(h: V1, t: bv64)
    ensures Fold(0, LanesV1(h.(timestamp := t))) != Fold(0, LanesV1(h)) <==> Lane64(t, 0) != Lane64(h.timestamp, 0)
  {
    hide Lanes64, Lanes32, Lane64, Extend16, Fold;
    var g := h.(timestamp := t);
    assert |LanesV1(h)| == 16 && LanesV1(h)[7] == Lane64(h.timestamp, 0);
    assert LanesV1(g) == LanesV1(h)[7 := Lane64(t, 0)];
    if Lane64(t, 0) != Lane64(h.timestamp, 0) {
      OneLaneShows(LanesV1(h), 7, Lane64(t, 0));
    }
  }

  /** The four lanes of a sign-extended field fold to the field, complemented when it is negative. */
  lemma FoldExtended(m: bv16)
    ensures Fold(0, Lanes64(Extend16(m))) == if m >= 0x8000 then Xor(m, 0xFFFF) else m
  {
    hide Fold, Lane64, Extend16, Xor;
    FoldFour(0, Lanes64(Extend16(m)));
    ExtendedLanes(m);
    XorZero(m);
    XorThrice(m, if m >= 0x8000 then 0xFFFF else 0);
  }

  lemma XorThrice(m: bv16, f: bv16)
    ensures Xor(Xor(Xor(m, f), f), f) == Xor(m, f)
  {
    hide Xor;
    XorAssociative(m, f, f);
    XorZero(f);
    XorZero(m);
  }

  lemma ExtendedLanes(m: bv16)
    ensures Lane64(Extend16(m), 0) == m
    ensures var f := if m >= 0x8000 then 0xFFFF else 0;
            Lane64(Extend16(m), 1) == f && Lane64(Extend16(m), 2) == f && Lane64(Extend16(m), 3) == f
  {
  }

  /** A change of the magic number alone goes unnoticed exactly when it complements every bit. */
  lemma MagicChangeShowsIff(h: V1, m: bv16)
    ensures Fold(0, LanesV1(h.(magic := m))) == Fold(0, LanesV1(h)) <==> m == h.magic || m == Xor(h.magic, 0xFFFF)
  {
    hide Lanes64, Lanes32, Lane64, Extend16, Fold, Xor;
    var rest := [h.headerLength, h.version, h.headerChecksum, Lane64(h.timestamp, 0)]
                + (Lanes32(h.dataLength) + (Lanes32(h.dataZlength) + Lanes64(h.dataChecksum)));
    FoldAppend(0, Lanes64(Extend16(h.magic)), rest);
    FoldAppend(0, Lanes64(Extend16(m)), rest);
    FoldExtended(h.magic);
    FoldExtended(m);
    var x, y := Fold(0, Lanes64(Extend16(h.magic))), Fold(0, Lanes64(Extend16(m)));
    XorReplace(0, x, y);
    XorZero(x);
    XorZero(y);
    FoldShift(x, Xor(x, y), rest);
    XorReplace(x, x, y);
    XorCancel(Fold(x, rest), Xor(x, y));
    FoldedMagic(h.magic, m);
    XorDifference(x, y);
  }

  lemma XorDifference(x: bv16, y: bv16)
    ensures Xor(x, Xor(x, y)) == y
    ensures Xor(x, y) == 0 <==> x == y
  {
    hide Xor;
    XorAssociative(x, x, y);
    XorZero(x);
    XorZero(y);
  }

  lemma FoldedMagic(m: bv16, n: bv16)
    ensures (if m >= 0x8000 then Xor(m, 0xFFFF) else m) == (if n >= 0x8000 then Xor(n, 0xFFFF) else n)
            <==> n == m || n == Xor(m, 0xFFFF)
  {
  }

  // ------------------------------------------------------------------ big-endian fields

  function Be16(v: bv16): (r: seq<bv8>)
    ensures |r| == 2
  {
    [((v >> 8) & 0xFF) as bv8, (v & 0xFF) as bv8]
  }

  function Be32(v: bv32): (r: seq<bv8>)
    ensures |r| == 4
  {
    [((v >> 24) & 0xFF) as bv8, ((v >> 16) & 0xFF) as bv8, ((v >> 8) & 0xFF) as bv8, (v & 0xFF) as bv8]
  }

  function Be64(v: bv64): (r: seq<bv8>)
    ensures |r| == 8
  {
    [((v >> 56) & 0xFF) as bv8, ((v >> 48) & 0xFF) as bv8, ((v >> 40) & 0xFF) as bv8, ((v >> 32) & 0xFF) as bv8,
     ((v >> 24) & 0xFF) as bv8, ((v >> 16) & 0xFF) as bv8, ((v >> 8) & 0xFF) as bv8, (v & 0xFF) as bv8]
  }

  function From16(s: seq<bv8>): bv16
    requires |s| == 2
  {
    ((s[0] as bv16) << 8) | (s[1] as bv16)
  }

  function From32(s: seq<bv8>): bv32
    requires |s| == 4
  {
    ((s[0] as bv32) << 24) | ((s[1] as bv32) << 16) | ((s[2] as bv32) << 8) | (s[3] as bv32)
  }

  function From64(s: seq<bv8>): bv64
    requires |s| == 8
  {
    ((s[0] as bv64) << 56) | ((s[1] as bv64) << 48) | ((s[2] as bv64) << 40) | ((s[3] as bv64) << 32)
    | ((s[4] as bv64) << 24) | ((s[5] as bv64) << 16) | ((s[6] as bv64) << 8) | (s[7] as bv64)
  }

  lemma FromBe16(v: bv16)
    ensures From16(Be16(v)) == v
  {
  }

  lemma FromBe32(v: bv32)
    ensures From32(Be32(v)) == v
  {
  }

  lemma FromBe64(v: bv64)
    ensures From64(Be64(v)) == v
  {
  }

  const HEADER_LENGTH: nat := 32

  /** The 32 bytes of a serialized header. */
  function Text(h: V1): (r: seq<bv8>)
    ensures |r| == HEADER_LENGTH
  {
    Be16(h.magic) + Be16(h.headerLength) + Be16(h.version) + Be16(h.headerChecksum) + Be64(h.timestamp)
    + Be32(h.dataLength) + Be32(h.dataZlength) + Be64(h.dataChecksum)
  }

  function Parse(s: seq<bv8>): V1
    requires |s| >= HEADER_LENGTH
  {
    V1(From16(s[0..2]), From16(s[2..4]), From16(s[4..6]), From16(s[6..8]), From64(s[8..16]),
       From32(s[16..20]), From32(s[20..24]), From64(s[24..32]))
  }

  /** The most significant byte first. */
  lemma BigEndian()
    ensures Be16(0x0102) == [1, 2] && Be32(0x0102_0304) == [1, 2, 3, 4]
    ensures Be64(0x0102_0304_0506_0708) == [1, 2, 3, 4, 5, 6, 7, 8]
    ensures From16([1, 2]) == 0x0102 && From32([1, 2, 3, 4]) == 0x0102_0304
    ensures From64([1, 2, 3, 4, 5, 6, 7, 8]) == 0x0102_0304_0506_0708
  {
  }

  /** Where each field stands in the 32 bytes. */
  lemma TextLayout(h: V1)
    ensures var s := Text(h);
            && s[0..2] == Be16(h.magic) && s[2..4] == Be16(h.headerLength)
            && s[4..6] == Be16(h.version) && s[6..8] == Be16(h.headerChecksum)
            && s[8..16] == Be64(h.timestamp) && s[16..20] == Be32(h.dataLength)
            && s[20..24] == Be32(h.dataZlength) && s[24..32] == Be64(h.dataChecksum)
  {
    hide Be16, Be32, Be64;
    var shorts := Be16(h.magic) + Be16(h.headerLength) + Be16(h.version) + Be16(h.headerChecksum);
    var longs := Be64(h.timestamp) + Be32(h.dataLength) + Be32(h.dataZlength) + Be64(h.dataChecksum);
    var s := Text(h);
    assert s == shorts + longs;
    assert s[0..2] == shorts[0..2] == Be16(h.magic) && s[2..4] == shorts[2..4] == Be16(h.headerLength);
    assert s[4..6] == shorts[4..6] == Be16(h.version) && s[6..8] == shorts[6..8] == Be16(h.headerChecksum);
    assert s[8..16] == longs[0..8] == Be64(h.timestamp) && s[16..20] == longs[8..12] == Be32(h.dataLength);
    assert s[20..24] == longs[12..16] == Be32(h.dataZlength) && s[24..32] == longs[16..24] == Be64(h.dataChecksum);
  }

  /** Reading a serialized header gives every field back, whatever follows. */
  lemma ParseText(h: V1, rest: seq<bv8>)
    ensures Parse(Text(h) + rest) == h
  {
    hide Be16, Be32, Be64, From16, From32, From64;
    var s := Text(h) + rest;
    assert s[0..2] == Be16(h.magic) && s[2..4] == Be16(h.headerLength);
    assert s[4..6] == Be16(h.version) && s[6..8] == Be16(h.headerChecksum);
    assert s[8..16] == Be64(h.timestamp) && s[16..20] == Be32(h.dataLength);
    assert s[20..24] == Be32(h.dataZlength) && s[24..32] == Be64(h.dataChecksum);
    FromBe16(h.magic);
    FromBe16(h.headerLength);
    FromBe16(h.version);
    FromBe16(h.headerChecksum);
    FromBe64(h.timestamp);
    FromBe32(h.dataLength);
    FromBe32(h.dataZlength);
    FromBe64(h.dataChecksum);
  }

  /** s with t written at position p. */
  function Overwrite(s: seq<bv8>, p: nat, t: seq<bv8>): (r: seq<bv8>)
    requires p + |t| <= |s|
    ensures |r| == |s|
  {
    s[..p] + t + s[p + |t|..]
  }

  lemma OverwriteMore(s: seq<bv8>, p: nat, a: seq<bv8>, b: seq<bv8>)
    requires p + |a| + |b| <= |s|
    ensures Overwrite(Overwrite(s, p, a), p + |a|, b) == Overwrite(s, p, a + b)
  {
  }

  /** encode_i16, encode_i32 and encode_i64: the bytes of one field, if all of them fit. */
  method Encode(buf: array<bv8>, bufLen: int, pos: nat, field: seq<bv8>) returns (ret: ObRet, pos': nat)
    requires bufLen <= buf.Length
    modifies buf
    ensures ret == (if bufLen - pos >= |field| then Success else SizeOverflow)
    ensures ret == Success ==> pos' == pos + |field| && buf[..] == Overwrite(old(buf[..]), pos, field)
    ensures ret != Success ==> pos' == pos && buf[..] == old(buf[..])
  {
    ret, pos' := SizeOverflow, pos;
    if bufLen - pos >= |field| {
      ret := Success;
      forall i | 0 <= i < |field| {
        buf[pos + i] := field[i];
      }
      pos' := pos + |field|;
    }
  }

  /** The fields as they are written, in order. */
  function Parts(h: V1): (r: seq<seq<bv8>>)
    ensures |r| == 8
  {
    [Be16(h.magic), Be16(h.headerLength), Be16(h.version), Be16(h.headerChecksum), Be64(h.timestamp),
     Be32(h.dataLength), Be32(h.dataZlength), Be64(h.dataChecksum)]
  }

  function Concat(parts: seq<seq<bv8>>): seq<bv8> {
    if parts == [] then [] else Concat(parts[..|parts| - 1]) + parts[|parts| - 1]
  }

  lemma ConcatNext(parts: seq<seq<bv8>>, k: nat)
    requires k < |parts|
    ensures Concat(parts[..k + 1]) == Concat(parts[..k]) + parts[k]
  {
    assert parts[..k + 1][..k] == parts[..k];
  }

  lemma {:induction false} ConcatPrefix(parts: seq<seq<bv8>>, k: nat)
    requires k <= |parts|
    ensures Concat(parts[..k]) <= Concat(parts)
    decreases |parts| - k
  {
    if k == |parts| {
      assert parts[..k] == parts;
    } else {
      ConcatNext(parts, k);
      ConcatPrefix(parts, k + 1);
    }
  }

  lemma ConcatParts(h: V1)
    ensures Concat(Parts(h)) == Text(h) && Concat(Parts(h)[..0]) == []
  {
    hide Be16, Be32, Be64, Concat;
    var p := Parts(h);
    ConcatNone(p);
    ConcatNext(p, 0);
    ConcatNext(p, 1);
    ConcatNext(p, 2);
    ConcatNext(p, 3);
    ConcatNext(p, 4);
    ConcatNext(p, 5);
    ConcatNext(p, 6);
    ConcatNext(p, 7);
    assert p[..8] == p;
  }

  lemma ConcatNone(parts: seq<seq<bv8>>)
    ensures Concat(parts[..0]) == []
  {
  }

  /** Encoding the parts in order into bufLen bytes has got this far: all of the first k written, or
      stopped at part |written| because it did not fit. */
  ghost predicate Progress(parts: seq<seq<bv8>>, k: nat, bufLen: int, start: nat, was: seq<bv8>,
                           ret: ObRet, pos: nat, now: seq<bv8>, written: nat)
  {
    && written <= k <= |parts|
    && pos == start + |Concat(parts[..written])| && pos <= |was|
    && now == Overwrite(was, start, Concat(parts[..written]))
    && (ret == Success ==> written == k)
    && (ret != Success ==> ret == SizeOverflow && written < k
                           && bufLen - start < |Concat(parts[..written])| + |parts[written]|)
  }

  /** One link of the chain: the next field, unless an earlier one failed. */
  method EncodeNext(buf: array<bv8>, bufLen: int, ret: ObRet, pos: nat, field: seq<bv8>,
                    ghost parts: seq<seq<bv8>>, ghost k: nat, ghost start: nat, ghost was: seq<bv8>, ghost written: nat)
      returns (ret': ObRet, pos': nat, ghost written': nat)
    requires bufLen <= buf.Length && k < |parts| && field == parts[k]
    requires Progress(parts, k, bufLen, start, was, ret, pos, buf[..], written)
    modifies buf
    ensures Progress(parts, k + 1, bufLen, start, was, ret', pos', buf[..], written')
    ensures ret' == Success ==> bufLen - start >= |Concat(parts[..k + 1])|
  {
    hide Concat, Overwrite;
    ret', pos', written' := ret, pos, written;
    if ret == Success {
      ret', pos' := Encode(buf, bufLen, pos, field);
      if ret' == Success {
        ConcatNext(parts, k);
        OverwriteMore(was, start, Concat(parts[..k]), field);
        written' := k + 1;
      }
    }
  }

  lemma ProgressNone(parts: seq<seq<bv8>>, bufLen: int, start: nat, was: seq<bv8>)
    requires start <= |was|
    ensures Progress(parts, 0, bufLen, start, was, Success, start, was, 0)
  {
  }

  /** What the finished chain has written. */
  lemma ProgressDone(parts: seq<seq<bv8>>, bufLen: int, start: nat, was: seq<bv8>,
                     ret: ObRet, pos: nat, now: seq<bv8>, written: nat)
    requires Progress(parts, |parts|, bufLen, start, was, ret, pos, now, written)
    requires ret == Success ==> bufLen - start >= |Concat(parts)|
    ensures ret == (if bufLen - start >= |Concat(parts)| then Success else SizeOverflow)
    ensures start <= pos <= start + |Concat(parts)| && pos <= |was|
    ensures now == Overwrite(was, start, Concat(parts)[..pos - start])
    ensures ret == Success ==> pos == start + |Concat(parts)|
  {
    hide Concat;
    ConcatPrefix(parts, written);
    if ret == Success {
      assert parts[..written] == parts;
    } else {
      ConcatNext(parts, written);
      ConcatPrefix(parts, written + 1);
    }
  }

  // ------------------------------------------------------------------ the check

  function Int16(v: bv16): int {
    if v >= 0x8000 then (v as int) - 0x1_0000 else v as int
  }

  function Int32(v: bv32): int {
    if v >= 0x8000_0000 then (v as int) - 0x1_0000_0000 else v as int
  }

  function Int64(v: bv64): int {
    if v >= 0x8000_0000_0000_0000 then (v as int) - 0x1_0000_0000_0000_0000 else v as int
  }

  /** The fields are signed: the upper half of each range is negative. */
  lemma SignedFields(v: bv16, w: bv32, x: bv64)
    ensures Int16(v) == (v as int) - (if v >= 0x8000 then 65536 else 0)
    ensures Int32(w) == (w as int) - (if w >= 0x8000_0000 then 4294967296 else 0)
    ensures Int64(x) == (x as int) - (if x >= 0x8000_0000_0000_0000 then 18446744073709551616 else 0)
  {
  }

  /** Widening a byte for the checksum keeps its sign, and the upper bits repeat it. */
  lemma ExtendKeepsSign(v: bv8)
    ensures Extend8(v) & 0xFF == v as bv16
    ensures Extend8(v) & 0xFF00 == if v & 0x80 == 0 then 0 else 0xFF00
  {
  }

  /** The length and checksum a header states are those of the payload. blank says that its three data
      fields are zero, which a header without payload must have. crc is ob_crc64. */
  predicate Describes(length: int, checksum: bv64, blank: bool, payload: seq<bv8>, crc: seq<bv8> -> bv64) {
    length == |payload| && checksum == crc(payload) && (payload == [] ==> blank)
  }

  predicate DescribesV1(h: V1, payload: seq<bv8>, crc: seq<bv8> -> bv64) {
    Describes(Int32(h.dataZlength), h.dataChecksum,
              h.dataZlength == 0 && h.dataLength == 0 && h.dataChecksum == 0, payload, crc)
  }

  predicate DescribesV2(h: V2, payload: seq<bv8>, crc: seq<bv8> -> bv64) {
    Describes(Int64(h.dataZlength), h.dataChecksum,
              h.dataZlength == 0 && h.dataLength == 0 && h.dataChecksum == 0, payload, crc)
  }

  /** A version 2 header that is wrong about the length of the payload, or has no payload but data
      fields that are not zero. */
  predicate MismatchV2(h: V2, payload: seq<bv8>) {
    Int64(h.dataZlength) != |payload| || (payload == [] && (h.dataLength != 0 || h.dataChecksum != 0))
  }

  /** A record is sound: a header of the right length and magic number whose checksum is right, then
      the payload it describes. */
  predicate Sound(data: seq<bv8>, magic: bv16, crc: seq<bv8> -> bv64) {
    && |data| > HEADER_LENGTH
    && var h := Parse(data); var payload := data[HEADER_LENGTH..];
       && Int16(h.headerLength) == HEADER_LENGTH && h.magic == magic
       && Fold(0, LanesV1(h)) == 0 && DescribesV1(h, payload, crc)
  }

  // ------------------------------------------------------------------ the memory of a version 2 header

  const HEADER_VERSION: bv8 := 2

  function Reversed8(s: seq<bv8>): (r: seq<bv8>)
    requires |s| == 8
    ensures |r| == 8
  {
    [s[7], s[6], s[5], s[4], s[3], s[2], s[1], s[0]]
  }

  /** Fields as a little-endian machine holds them. */
  function Le16(v: bv16): (r: seq<bv8>)
    ensures |r| == 2
  {
    [Be16(v)[1], Be16(v)[0]]
  }

  function Le64(v: bv64): (r: seq<bv8>)
    ensures |r| == 8
  {
    Reversed8(Be64(v))
  }

  function FromLe16(s: seq<bv8>): bv16
    requires |s| == 2
  {
    From16([s[1], s[0]])
  }

  function FromLe64(s: seq<bv8>): bv64
    requires |s| == 8
  {
    From64(Reversed8(s))
  }

  lemma FromLe(v: bv16, w: bv64)
    ensures FromLe16(Le16(v)) == v && FromLe64(Le64(w)) == w
  {
    hide Be16, Be64, From16, From64;
    FromBe16(v);
    FromBe64(w);
    assert [Le16(v)[1], Le16(v)[0]] == Be16(v);
    assert Reversed8(Le64(w)) == Be64(w);
  }

  /** The least significant byte first. */
  lemma LittleEndian()
    ensures Le16(0x0102) == [2, 1] && FromLe16([2, 1]) == 0x0102
    ensures Le64(0x0102_0304_0506_0708) == [8, 7, 6, 5, 4, 3, 2, 1]
    ensures FromLe64([8, 7, 6, 5, 4, 3, 2, 1]) == 0x0102_0304_0506_0708
  {
    BigEndian();
  }

  /** The 32 bytes of a version 2 header in memory. */
  function TextV2(h: V2): (r: seq<bv8>)
    ensures |r| == HEADER_LENGTH
  {
    Le16(h.magic) + [h.headerLength, h.version] + Le16(h.headerChecksum) + Le16(h.reserved16)
    + Le64(h.dataLength) + Le64(h.dataZlength) + Le64(h.dataChecksum)
  }

  function ParseV2(s: seq<bv8>): V2
    requires |s| >= HEADER_LENGTH
  {
    V2(FromLe16(s[0..2]), s[2], s[3], FromLe16(s[4..6]), FromLe16(s[6..8]),
       FromLe64(s[8..16]), FromLe64(s[16..24]), FromLe64(s[24..32]))
  }

  /** Where each field stands in memory. */
  lemma TextV2Layout(h: V2)
    ensures var s := TextV2(h);
            && s[0..2] == Le16(h.magic) && s[2] == h.headerLength && s[3] == h.version
            && s[4..6] == Le16(h.headerChecksum) && s[6..8] == Le16(h.reserved16)
            && s[8..16] == Le64(h.dataLength) && s[16..24] == Le64(h.dataZlength)
            && s[24..32] == Le64(h.dataChecksum)
  {
    hide Le16, Le64;
    var head := Le16(h.magic) + [h.headerLength, h.version] + Le16(h.headerChecksum) + Le16(h.reserved16);
    var data := Le64(h.dataLength) + Le64(h.dataZlength) + Le64(h.dataChecksum);
    var s := TextV2(h);
    assert s == head + data;
    assert s[0..2] == head[0..2] == Le16(h.magic) && s[2] == head[2] && s[3] == head[3];
    assert s[4..6] == head[4..6] == Le16(h.headerChecksum) && s[6..8] == head[6..8] == Le16(h.reserved16);
    assert s[8..16] == data[0..8] == Le64(h.dataLength) && s[16..24] == data[8..16] == Le64(h.dataZlength);
    assert s[24..32] == data[16..24] == Le64(h.dataChecksum);
  }

  lemma ParseV2Prefix(s: seq<bv8>)
    requires |s| >= HEADER_LENGTH
    ensures ParseV2(s[..HEADER_LENGTH]) == ParseV2(s)
  {
    hide FromLe16, FromLe64;
    var t := s[..HEADER_LENGTH];
    assert t[0..2] == s[0..2] && t[4..6] == s[4..6] && t[6..8] == s[6..8];
    assert t[8..16] == s[8..16] && t[16..24] == s[16..24] && t[24..32] == s[24..32];
  }

  lemma ParseTextV2(h: V2, rest: seq<bv8>)
    ensures ParseV2(TextV2(h) + rest) == h
  {
    hide Le16, Le64, FromLe16, FromLe64;
    var s := TextV2(h) + rest;
    assert s[0..2] == Le16(h.magic) && s[2] == h.headerLength && s[3] == h.version;
    assert s[4..6] == Le16(h.headerChecksum) && s[6..8] == Le16(h.reserved16);
    assert s[8..16] == Le64(h.dataLength) && s[16..24] == Le64(h.dataZlength) && s[24..32] == Le64(h.dataChecksum);
    FromLe(h.magic, h.dataLength);
    FromLe(h.headerChecksum, h.dataZlength);
    FromLe(h.reserved16, h.dataChecksum);
  }

  /** A sound version 2 record. Its own length field is not looked at, a negative magic number is never
      accepted, and an empty payload may be. */
  predicate SoundV2(data: seq<bv8>, magic: bv16, crc: seq<bv8> -> bv64) {
    && Int16(magic) >= 0 && |data| >= HEADER_LENGTH
    && var h := ParseV2(data);
       && h.magic == magic && h.version == HEADER_VERSION
       && Fold(0, LanesV2(h)) == 0 && DescribesV2(h, data[HEADER_LENGTH..], crc)
  }

  /** Long enough, with the magic number asked for and the version of the format. */
  predicate RecognizedV2(data: seq<bv8>, magic: bv16) {
    && Int16(magic) >= 0 && |data| >= HEADER_LENGTH
    && ParseV2(data).magic == magic && ParseV2(data).version == HEADER_VERSION
  }

  /** Putting another payload after the header of a sound record keeps it sound exactly when the two
      payloads agree in length and in CRC. */
  lemma SwappedPayloadV2Iff(h: V2, p: seq<bv8>, q: seq<bv8>, magic: bv16, crc: seq<bv8> -> bv64)
    requires SoundV2(TextV2(h) + p, magic, crc)
    ensures SoundV2(TextV2(h) + q, magic, crc) <==> |q| == |p| && crc(q) == crc(p)
  {
    hide Fold, LanesV2, Int16, Int64, ParseV2, TextV2;
    ParseTextV2(h, p);
    ParseTextV2(h, q);
    assert (TextV2(h) + p)[HEADER_LENGTH..] == p && (TextV2(h) + q)[HEADER_LENGTH..] == q;
    if |q| == |p| == 0 {
      assert q == p;
    }
  }

  /** A version 2 header that describes a payload and has its checksum set makes a sound record exactly
      when its version is 2 and its magic number is not negative. */
  lemma FilledV2RecordIsSoundIff(h: V2, payload: seq<bv8>, crc: seq<bv8> -> bv64)
    requires DescribesV2(h, payload, crc) && Fold(0, LanesV2(h)) == 0
    ensures SoundV2(TextV2(h) + payload, h.magic, crc) <==> h.version == 2 && h.magic < 0x8000
    ensures (TextV2(h) + payload)[HEADER_LENGTH..] == payload
  {
    hide Fold, LanesV2, Int16, Int64, ParseV2, TextV2;
    SignedFields(h.magic, 0, 0);
    ParseTextV2(h, payload);
  }

  // ------------------------------------------------------------------ reading part of a header

  /** How many of the n bytes left belong to whole fields. */
  function WholeFields(n: int): (r: nat)
    ensures n >= 0 ==> r <= n && r <= HEADER_LENGTH
  {
    if n < 2 then 0
    else if n < 4 then 2
    else if n < 6 then 4
    else if n < 8 then 6
    else if n < 16 then 8
    else if n < 20 then 16
    else if n < 24 then 20
    else if n < HEADER_LENGTH then 24
    else HEADER_LENGTH
  }

  /** The header h with the fields that s holds whole, from position p on, read over it. */
  function ReadOver(h: V1, s: seq<bv8>, p: nat): V1 {
    var n := |s| - p;
    V1(if n < 2 then h.magic else From16(s[p..p + 2]),
       if n < 4 then h.headerLength else From16(s[p + 2..p + 4]),
       if n < 6 then h.version else From16(s[p + 4..p + 6]),
       if n < 8 then h.headerChecksum else From16(s[p + 6..p + 8]),
       if n < 16 then h.timestamp else From64(s[p + 8..p + 16]),
       if n < 20 then h.dataLength else From32(s[p + 16..p + 20]),
       if n < 24 then h.dataZlength else From32(s[p + 20..p + 24]),
       if n < HEADER_LENGTH then h.dataChecksum else From64(s[p + 24..p + 32]))
  }

  /** From the first n bytes of a serialized header g exactly the fields that end within them are read,
      and the rest of h stays. */
  lemma ReadOverText(h: V1, g: V1, n: nat)
    requires n <= HEADER_LENGTH
    ensures var r := ReadOver(h, Text(g)[..n], 0);
            && r.magic == (if n >= 2 then g.magic else h.magic)
            && r.headerLength == (if n >= 4 then g.headerLength else h.headerLength)
            && r.version == (if n >= 6 then g.version else h.version)
            && r.headerChecksum == (if n >= 8 then g.headerChecksum else h.headerChecksum)
            && r.timestamp == (if n >= 16 then g.timestamp else h.timestamp)
            && r.dataLength == (if n >= 20 then g.dataLength else h.dataLength)
            && r.dataZlength == (if n >= 24 then g.dataZlength else h.dataZlength)
            && r.dataChecksum == (if n >= 32 then g.dataChecksum else h.dataChecksum)
  {
    hide Be16, Be32, Be64, From16, From32, From64, Text;
    TextLayout(g);
    PartOf(Text(g), n);
    FromBe16(g.magic);
    FromBe16(g.headerLength);
    FromBe16(g.version);
    FromBe16(g.headerChecksum);
    FromBe64(g.timestamp);
    FromBe32(g.dataLength);
    FromBe32(g.dataZlength);
    FromBe64(g.dataChecksum);
  }

  lemma PartOf(s: seq<bv8>, n: nat)
    requires n <= |s|
    ensures forall i, j :: 0 <= i <= j <= n ==> s[..n][i..j] == s[i..j]
  {
  }

  /** The position stops after the last field that the data holds whole. */
  lemma WholeFieldsIs(n: int)
    ensures WholeFields(n) in [0, 2, 4, 6, 8, 16, 20, 24, 32]
    ensures forall k :: k in [0, 2, 4, 6, 8, 16, 20, 24, 32] && k <= n ==> k <= WholeFields(n)
  {
  }

  class ObRecordHeader {
    var magic: bv16
    var headerLength: bv16
    var version: bv16
    var headerChecksum: bv16
    var timestamp: bv64
    var dataLength: bv32
    var dataZlength: bv32
    var dataChecksum: bv64

    constructor ()
      ensures Fields() == V1(0, 0, 0, 0, 0, 0, 0, 0)
    {
      magic, headerLength, version, headerChecksum := 0, 0, 0, 0;
      timestamp, dataLength, dataZlength, dataChecksum := 0, 0, 0, 0;
    }

    function Fields(): V1
      reads this
    {
      V1(magic, headerLength, version, headerChecksum, timestamp, dataLength, dataZlength, dataChecksum)
    }

    /** set_header_checksum. */
    method SetHeaderChecksum()
      modifies `headerChecksum
      ensures headerChecksum == Fold(0, LanesV1(old(Fields()).(headerChecksum := 0)))
      ensures Fold(0, LanesV1(Fields())) == 0
    {
      hide Lanes64, Lanes32, Lane64, Extend16, Xor, Fold;
      headerChecksum := 0;
      var checksum := FormatI64(Extend16(magic), 0);
      checksum := Xor(checksum, headerLength);
      checksum := Xor(checksum, version);
      checksum := Xor(checksum, headerChecksum);
      checksum := Xor(checksum, Lane64(timestamp, 0));
      checksum := FormatI32(dataLength, checksum);
      checksum := FormatI32(dataZlength, checksum);
      checksum := FormatI64(dataChecksum, checksum);
      FoldLanesV1(Fields());
      ghost var was := LanesV1(Fields());
      StoredChecksum(was, 6);
      headerChecksum := checksum;
      assert LanesV1(Fields()) == was[6 := checksum];
    }

    /** check_header_checksum. */
    method CheckHeaderChecksum() returns (ret: ObRet)
      ensures ret == (if Fold(0, LanesV1(Fields())) == 0 then Success else ChecksumError)
    {
      hide Lanes64, Lanes32, Lane64, Extend16, Xor, Fold, LanesV1;
      ret := Success;
      var checksum := FormatI64(Extend16(magic), 0);
      checksum := Xor(checksum, headerLength);
      checksum := Xor(checksum, version);
      checksum := Xor(checksum, headerChecksum);
      checksum := Xor(checksum, Lane64(timestamp, 0));
      checksum := FormatI32(dataLength, checksum);
      checksum := FormatI32(dataZlength, checksum);
      checksum := FormatI64(dataChecksum, checksum);
      FoldLanesV1(Fields());
      if 0 != checksum {
        ret := ChecksumError;
      }
    }

    /** serialize. A header that does not fit is written as far as whole fields go, and the position is
        left there. */
    method Serialize(buf: array<bv8>, bufLen: int, pos: nat) returns (ret: ObRet, pos': nat)
      requires bufLen <= buf.Length && pos <= buf.Length
      modifies buf
      ensures ret == (if bufLen <= 0 then InvalidArgument
                      else if bufLen - pos >= HEADER_LENGTH then Success else SizeOverflow)
      ensures ret == Success ==> pos' == pos + HEADER_LENGTH
      ensures pos <= pos' <= pos + HEADER_LENGTH && pos' <= buf.Length
      ensures buf[..] == Overwrite(old(buf[..]), pos, Text(Fields())[..pos' - pos])
    {
      hide Text, Be16, Be32, Be64, Progress, Concat;
      ret, pos' := Success, pos;
      ghost var was, h := buf[..], Fields();
      ghost var parts, done: nat := Parts(h), 0;
      if bufLen <= 0 {
        ret := InvalidArgument;
        assert was == Overwrite(was, pos, []);
      } else {
        ConcatParts(h);
        ProgressNone(parts, bufLen, pos, was);
        ret, pos', done := EncodeNext(buf, bufLen, ret, pos', Be16(magic), parts, 0, pos, was, done);
        ret, pos', done := EncodeNext(buf, bufLen, ret, pos', Be16(headerLength), parts, 1, pos, was, done);
        ret, pos', done := EncodeNext(buf, bufLen, ret, pos', Be16(version), parts, 2, pos, was, done);
        ret, pos', done := EncodeNext(buf, bufLen, ret, pos', Be16(headerChecksum), parts, 3, pos, was, done);
        ret, pos', done := EncodeNext(buf, bufLen, ret, pos', Be64(timestamp), parts, 4, pos, was, done);
        ret, pos', done := EncodeNext(buf, bufLen, ret, pos', Be32(dataLength), parts, 5, pos, was, done);
        ret, pos', done := EncodeNext(buf, bufLen, ret, pos', Be32(dataZlength), parts, 6, pos, was, done);
        ret, pos', done := EncodeNext(buf, bufLen, ret, pos', Be64(dataChecksum), parts, 7, pos, was, done);
        assert parts[..8] == parts;
        ProgressDone(parts, bufLen, pos, was, ret, pos', buf[..], done);
      }
    }

    /** deserialize. Fields read before the data ends stay read, and the position stays after them. */
    method Deserialize(buf: seq<bv8>, pos: nat) returns (ret: ObRet, pos': nat)
      modifies this
      ensures ret == (if |buf| <= 0 then InvalidArgument
                      else if |buf| - pos >= HEADER_LENGTH then Success else DeserializeError)
      ensures pos' == pos + WholeFields(|buf| - pos)
      ensures Fields() == ReadOver(old(Fields()), buf, pos)
    {
      hide From16, From32, From64;
      pos' := pos;
      if |buf| <= 0 {
        return InvalidArgument, pos';
      }
      ret, pos' := DecodeShorts(buf, pos');
      if ret == Success {
        ret, pos' := DecodeLongs(buf, pos');
      }
    }

    /** The first half of the chain: the four 16-bit fields. */
    method DecodeShorts(buf: seq<bv8>, pos: nat) returns (ret: ObRet, pos': nat)
      modifies `magic, `headerLength, `version, `headerChecksum
      ensures ret == (if |buf| - pos >= 8 then Success else DeserializeError)
      ensures pos' == pos + Min(WholeFields(|buf| - pos), 8)
      ensures magic == if |buf| - pos < 2 then old(magic) else From16(buf[pos..pos + 2])
      ensures headerLength == if |buf| - pos < 4 then old(headerLength) else From16(buf[pos + 2..pos + 4])
      ensures version == if |buf| - pos < 6 then old(version) else From16(buf[pos + 4..pos + 6])
      ensures headerChecksum == if |buf| - pos < 8 then old(headerChecksum) else From16(buf[pos + 6..pos + 8])
    {
      hide From16;
      ret, pos' := DeserializeError, pos;
      if |buf| - pos' < 2 { return; }
      magic, pos' := From16(buf[pos'..pos' + 2]), pos' + 2;
      if |buf| - pos' < 2 { return; }
      headerLength, pos' := From16(buf[pos'..pos' + 2]), pos' + 2;
      if |buf| - pos' < 2 { return; }
      version, pos' := From16(buf[pos'..pos' + 2]), pos' + 2;
      if |buf| - pos' < 2 { return; }
      headerChecksum, pos' := From16(buf[pos'..pos' + 2]), pos' + 2;
      ret := Success;
    }

    /** The second half: time stamp, lengths and data checksum. */
    method DecodeLongs(buf: seq<bv8>, pos: nat) returns (ret: ObRet, pos': nat)
      requires 8 <= pos <= |buf|
      modifies `timestamp, `dataLength, `dataZlength, `dataChecksum
      ensures ret == (if |buf| - pos >= 24 then Success else DeserializeError)
      ensures pos' == pos - 8 + WholeFields(|buf| - pos + 8)
      ensures timestamp == if |buf| - pos < 8 then old(timestamp) else From64(buf[pos..pos + 8])
      ensures dataLength == if |buf| - pos < 12 then old(dataLength) else From32(buf[pos + 8..pos + 12])
      ensures dataZlength == if |buf| - pos < 16 then old(dataZlength) else From32(buf[pos + 12..pos + 16])
      ensures dataChecksum == if |buf| - pos < 24 then old(dataChecksum) else From64(buf[pos + 16..pos + 24])
    {
      hide From32, From64;
      ret, pos' := DeserializeError, pos;
      if |buf| - pos' < 8 { return; }
      timestamp, pos' := From64(buf[pos'..pos' + 8]), pos' + 8;
      if |buf| - pos' < 4 { return; }
      dataLength, pos' := From32(buf[pos'..pos' + 4]), pos' + 4;
      if |buf| - pos' < 4 { return; }
      dataZlength, pos' := From32(buf[pos'..pos' + 4]), pos' + 4;
      if |buf| - pos' < 8 { return; }
      dataChecksum, pos' := From64(buf[pos'..pos' + 8]), pos' + 8;
      ret := Success;
    }

    /** check_payload_checksum. It succeeds exactly when the header describes the payload; a payload of
        another length is an argument error, one of another checksum a checksum error. */
    method CheckPayloadChecksum(payload: seq<bv8>, crc: seq<bv8> -> bv64) returns (ret: ObRet)
      ensures ret == Success <==> DescribesV1(Fields(), payload, crc)
      ensures ret == InvalidArgument <==>
                Int32(dataZlength) != |payload| || (payload == [] && (dataLength != 0 || dataChecksum != 0))
      ensures ret == Success || ret == InvalidArgument || ret == ChecksumError
    {
      ret := Success;
      if 0 == |payload| && (0 != dataZlength || 0 != dataLength || 0 != dataChecksum) {
        ret := InvalidArgument;
      } else if Int32(dataZlength) != |payload| {
        ret := InvalidArgument;
      } else {
        var sum := crc(payload);
        if sum != dataChecksum {
          ret := ChecksumError;
        }
      }
    }

    /** check_record: reads the header, checks it and hands out the payload. */
    static method CheckRecord(data: seq<bv8>, magic: bv16, header: ObRecordHeader, crc: seq<bv8> -> bv64)
        returns (ret: ObRet, payload: seq<bv8>)
      modifies header
      ensures ret == Success <==> Sound(data, magic, crc)
      ensures |data| >= HEADER_LENGTH ==> header.Fields() == Parse(data)
      ensures ret == Success ==> payload == data[HEADER_LENGTH..]
      ensures ret == InvalidArgument <==>
                |data| < HEADER_LENGTH || (|data| == HEADER_LENGTH && Int16(Parse(data).headerLength) == HEADER_LENGTH)
      ensures ret == InvalidData <==>
                && |data| >= HEADER_LENGTH
                && (|| Int16(Parse(data).headerLength) != HEADER_LENGTH
                    || (|data| > HEADER_LENGTH
                        && (Parse(data).magic != magic || Int32(Parse(data).dataZlength) != |data| - HEADER_LENGTH)))
      ensures ret == Success || ret == InvalidArgument || ret == InvalidData || ret == ChecksumError
    {
      hide Fold, LanesV1, From16, From32, From64, Int16, Int32;
      payload := [];
      if |data| < HEADER_LENGTH {
        return InvalidArgument, payload;
      }
      var pos;
      ret, pos := header.Deserialize(data, 0);
      if ret == Success {
        if Int16(header.headerLength) != pos {
          ret := InvalidData;
        } else {
          payload := data[pos..];
          if |payload| <= 0 {
            ret := InvalidArgument;
          } else if header.magic != magic {
            ret := InvalidData;
          } else if Int32(header.dataZlength) != |payload| {
            ret := InvalidData;
          } else {
            ret := header.CheckHeaderChecksum();
            if ret == Success {
              ret := header.CheckPayloadChecksum(payload, crc);
            }
          }
        }
      }
    }
  }

  /** A header that describes a payload and has its checksum set, written before that payload, makes a
      sound record. */
  lemma FilledRecordIsSound(h: V1, payload: seq<bv8>, crc: seq<bv8> -> bv64)
    requires payload != [] && Int16(h.headerLength) == HEADER_LENGTH
    requires DescribesV1(h, payload, crc) && Fold(0, LanesV1(h)) == 0
    ensures Sound(Text(h) + payload, h.magic, crc)
    ensures (Text(h) + payload)[HEADER_LENGTH..] == payload && Parse(Text(h) + payload) == h
  {
    hide Fold, LanesV1, Int16, Int32, Parse, Text;
    ParseText(h, payload);
  }

  /** In version 1 too, another payload after the header of a sound record keeps it sound exactly when it
      agrees in length and CRC. */
  lemma SwappedPayloadIff(h: V1, p: seq<bv8>, q: seq<bv8>, magic: bv16, crc: seq<bv8> -> bv64)
    requires Sound(Text(h) + p, magic, crc)
    ensures Sound(Text(h) + q, magic, crc) <==> |q| == |p| && crc(q) == crc(p)
  {
    hide Fold, LanesV1, Int16, Int32, Parse, Text;
    ParseText(h, p);
    ParseText(h, q);
    assert (Text(h) + p)[HEADER_LENGTH..] == p && (Text(h) + q)[HEADER_LENGTH..] == q;
  }

  /** Two headers that pass or fail together: they differ in bit 16 of the time stamp. */
  lemma TimestampChangeMissed(h: V1)
    requires h.timestamp == 0
    ensures h.(timestamp := 0x1_0000) != h && Fold(0, LanesV1(h.(timestamp := 0x1_0000))) == Fold(0, LanesV1(h))
  {
    hide Fold, LanesV1;
    TimestampChangeShowsIff(h, 0x1_0000);
  }

  /** And two whose magic numbers are 1 and its complement. */
  lemma MagicChangeMissed(h: V1)
    requires h.magic == 1
    ensures Fold(0, LanesV1(h.(magic := 0xFFFE))) == Fold(0, LanesV1(h))
  {
    hide Fold, LanesV1;
    MagicChangeShowsIff(h, 0xFFFE);
  }
}
