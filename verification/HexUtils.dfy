/** ObHexUtils: hexadecimal text of a byte string and back. */
module HexUtils {
  import opened Errors
  import opened TwosComplement

  // ------------------------------------------------------------------ digits

  /** isxdigit, on character codes. */
  predicate IsXDigit(c: byte) {
    '0' as int <= c <= '9' as int || 'A' as int <= c <= 'F' as int || 'a' as int <= c <= 'f' as int
  }

  /** get_xdigit: the digit's value. */
  function XDigit(c: byte): (d: int)
    requires IsXDigit(c)
    ensures 0 <= d < 16
  {
    if c >= 'a' as int then c - 'a' as int + 10
    else if c >= 'A' as int then c - 'A' as int + 10
    else c - '0' as int
  }

  /** HEXCHARS. */
  function HexChar(d: int): (c: byte)
    requires 0 <= d < 16
    ensures IsXDigit(c) && XDigit(c) == d
  {
    if d < 10 then '0' as int + d else 'A' as int + d - 10
  }

  /** The digits are the usual ones, written in upper case and read in either. */
  lemma DigitTable(d: int)
    requires 0 <= d < 16
    ensures HexChar(d) == "0123456789ABCDEF"[d] as int
    ensures IsXDigit("0123456789abcdef"[d] as int) && XDigit("0123456789abcdef"[d] as int) == d
    ensures forall c: byte :: IsXDigit(c) ==>
              exists k :: 0 <= k < 16 && (c == "0123456789ABCDEF"[k] as int || c == "0123456789abcdef"[k] as int)
  {
    forall c: byte | IsXDigit(c)
      ensures exists k :: 0 <= k < 16 && (c == "0123456789ABCDEF"[k] as int || c == "0123456789abcdef"[k] as int)
    {
      var k := XDigit(c);
      assert c == "0123456789ABCDEF"[k] as int || c == "0123456789abcdef"[k] as int;
    }
  }

  /** The digit in upper case. */
  function Upper(c: byte): byte {
    if 'a' as int <= c <= 'z' as int then c - 32 else c
  }

  predicate AllHex(text: seq<byte>) {
    forall i :: 0 <= i < |text| ==> IsXDigit(text[i])
  }

  // ------------------------------------------------------------------ the two texts

  function Hexed(bytes: seq<byte>): (r: seq<byte>)
    ensures |r| == 2 * |bytes| && AllHex(r)
  {
    seq(2 * |bytes|, i requires 0 <= i < 2 * |bytes| =>
      HexChar(if i % 2 == 0 then bytes[i / 2] / 16 else bytes[i / 2] % 16))
  }

  /** Text of odd length is read with a zero in front. */
  function Padded(text: seq<byte>): (r: seq<byte>)
    ensures |r| % 2 == 0
    ensures AllHex(r) <==> AllHex(text)
  {
    if |text| % 2 == 1 then
      var r := ['0' as int] + text;
      assert forall i :: 0 <= i < |text| ==> text[i] == r[i + 1];
      r
    else text
  }

  function Unhexed(text: seq<byte>): (r: seq<byte>)
    requires AllHex(text)
    ensures |r| == |Padded(text)| / 2
  {
    var p := Padded(text);
    seq(|p| / 2, i requires 0 <= i < |p| / 2 => PairValue(p, i))
  }

  /** The byte that digits 2i and 2i + 1 spell. */
  function PairValue(p: seq<byte>, i: nat): byte
    requires 2 * i + 1 < |p| && IsXDigit(p[2 * i]) && IsXDigit(p[2 * i + 1])
  {
    16 * XDigit(p[2 * i]) + XDigit(p[2 * i + 1])
  }

  /** r is what the first |r| digit pairs of p spell. */
  ghost predicate Spelled(p: seq<byte>, r: seq<byte>) {
    && 2 * |r| <= |p|
    && forall k :: 0 <= k < |r| ==> IsXDigit(p[2 * k]) && IsXDigit(p[2 * k + 1]) && r[k] == PairValue(p, k)
  }

  lemma SpelledNone(p: seq<byte>)
    ensures Spelled(p, [])
  {
  }

  lemma SpelledNext(p: seq<byte>, r: seq<byte>)
    requires Spelled(p, r) && 2 * |r| + 1 < |p|
    requires IsXDigit(p[2 * |r|]) && IsXDigit(p[2 * |r| + 1])
    ensures Spelled(p, r + [PairValue(p, |r|)])
  {
  }

  lemma SpelledAll(text: seq<byte>, r: seq<byte>)
    requires Spelled(Padded(text), r) && 2 * |r| == |Padded(text)|
    ensures AllHex(text) && r == Unhexed(text)
  {
    var p := Padded(text);
    forall i | 0 <= i < |p|
      ensures IsXDigit(p[i])
    {
      var k := i / 2;
      assert IsXDigit(p[2 * k]) && IsXDigit(p[2 * k + 1]);
    }
  }

  lemma NotAllHex(p: seq<byte>, k: nat)
    requires 2 * k + 1 < |p| && !(IsXDigit(p[2 * k]) && IsXDigit(p[2 * k + 1]))
    ensures !AllHex(p)
  {
  }

  // ------------------------------------------------------------------ the loops

  method Hex(text: seq<byte>) returns (res: seq<byte>)
    ensures res == Hexed(text)
  {
    var buf := new byte[if |text| == 0 then 1 else |text| * 2];
    var pos: nat := 0;
    for i := 0 to |text|
      invariant pos == 2 * i
      invariant forall k :: 0 <= k < i ==>
                  buf[2 * k] == HexChar(text[k] / 16) && buf[2 * k + 1] == HexChar(text[k] % 16)
    {
      buf[pos] := HexChar(text[i] / 16);
      pos := pos + 1;
      buf[pos] := HexChar(text[i] % 16);
      pos := pos + 1;
    }
    res := buf[..pos];
    assert forall k :: 0 <= k < |res| ==> res[k] == Hexed(text)[k] by {
      forall k | 0 <= k < |res| ensures res[k] == Hexed(text)[k] {
        assert k == 2 * (k / 2) || k == 2 * (k / 2) + 1;
      }
    }
  }

  /** Where the loop stands after done pairs, and what it fetches next. */
  lemma NextPair(text: seq<byte>, past: (byte, byte), i: nat, done: nat)
    requires i == 2 * done + 1 - |text| % 2 && i < |text|
    ensures i / 2 == done && 2 * done + 1 < |Padded(text)|
    ensures var memory, p := text + [past.0, past.1], Padded(text);
            2 * done + 3 < |p| ==> memory[i + 1] == p[2 * done + 2] && memory[i + 2] == p[2 * done + 3]
  {
  }

  /** The loop keeps the next two characters in hand, so its last step fetches the two bytes after
      the end of the text. past is whatever lies there. */
  method Unhex(text: seq<byte>, past: (byte, byte)) returns (ret: ObRet, res: seq<byte>)
    ensures ret == (if AllHex(text) then Success else InvalidHexNumber)
    ensures AllHex(text) ==> res == Unhexed(text)
  {
    hide XDigit, IsXDigit, AllHex, Padded, Spelled;
    var memory := text + [past.0, past.1];
    var needFillZero := |text| % 2 == 1;
    var tmpLength := |text| / 2 + if needFillZero then 1 else 0;
    var buf := new byte[if tmpLength == 0 then 1 else tmpLength];
    var i, c1: byte, c2: byte := 0, 0, 0;
    PaddedStart(text);
    if |text| > 0 {
      if needFillZero {
        c1, c2, i := '0' as int, text[0], 0;
      } else {
        c1, c2, i := text[0], text[1], 1;
      }
    }
    ret := Success;
    ghost var padded := Padded(text);
    ghost var r: seq<byte> := [];
    SpelledNone(padded);
    while ret == Success && i < |text|
      invariant |r| <= tmpLength
      invariant i == if |text| == 0 then 0 else 2 * |r| + 1 - |text| % 2
      invariant 2 * |r| + 1 < |padded| ==> c1 == padded[2 * |r|] && c2 == padded[2 * |r| + 1]
      invariant buf[..|r|] == r && Spelled(padded, r)
      invariant ret == Success || (ret == InvalidHexNumber && !AllHex(padded))
      decreases |text| - i, ret == Success
    {
      NextPair(text, past, i, |r|);
      if IsXDigit(c1) && IsXDigit(c2) {
        SpelledNext(padded, r);
        r := r + [PairValue(padded, |r|)];
        buf[i / 2] := 16 * XDigit(c1) + XDigit(c2);
        i := i + 1;
        c1 := memory[i];
        i := i + 1;
        c2 := memory[i];
      } else {
        ret := InvalidHexNumber;
        NotAllHex(padded, |r|);
      }
    }
    res := buf[..tmpLength];
    if ret == Success {
      SpelledAll(text, res);
    }
  }

  lemma PaddedStart(text: seq<byte>)
    ensures |Padded(text)| == |text| + |text| % 2
    ensures |text| > 0 ==> if |text| % 2 == 1 then Padded(text)[0] == '0' as int && Padded(text)[1] == text[0]
                           else Padded(text)[0] == text[0] && Padded(text)[1] == text[1]
  {
  }

  // ------------------------------------------------------------------ hex and unhex undo each other

  lemma HexedPair(bytes: seq<byte>, i: nat)
    requires i < |bytes|
    ensures Hexed(bytes)[2 * i] == HexChar(bytes[i] / 16) && Hexed(bytes)[2 * i + 1] == HexChar(bytes[i] % 16)
  {
    hide HexChar, XDigit;
    assert (2 * i) / 2 == i && (2 * i) % 2 == 0 && (2 * i + 1) / 2 == i && (2 * i + 1) % 2 == 1;
  }

  lemma UnhexedAt(text: seq<byte>, i: nat)
    requires AllHex(text) && 2 * i + 1 < |text| && |text| % 2 == 0
    ensures Unhexed(text)[i] == PairValue(text, i)
  {
    hide PairValue;
  }

  lemma UnhexHex(bytes: seq<byte>)
    ensures AllHex(Hexed(bytes)) && Unhexed(Hexed(bytes)) == bytes
  {
    hide HexChar, XDigit, Hexed;
    var h := Hexed(bytes);
    forall i | 0 <= i < |bytes|
      ensures Unhexed(h)[i] == bytes[i]
    {
      HexedPair(bytes, i);
      UnhexedAt(h, i);
      assert bytes[i] == 16 * (bytes[i] / 16) + bytes[i] % 16;
    }
  }

  /** The text comes back in upper case, with its length made even. */
  lemma HexUnhex(text: seq<byte>)
    requires AllHex(text)
    ensures |Hexed(Unhexed(text))| == |Padded(text)|
    ensures forall i :: 0 <= i < |Padded(text)| ==> Hexed(Unhexed(text))[i] == Upper(Padded(text)[i])
  {
    var p, u := Padded(text), Unhexed(text);
    forall i | 0 <= i < |p|
      ensures Hexed(u)[i] == Upper(p[i])
    {
      var k := i / 2;
      hide HexChar, Padded;
      assert i == 2 * k || i == 2 * k + 1;
      assert u[k] == PairValue(p, k);
      HexPair(p[2 * k], p[2 * k + 1]);
    }
  }

  lemma HexPair(c1: byte, c2: byte)
    requires IsXDigit(c1) && IsXDigit(c2)
    ensures var b := 16 * XDigit(c1) + XDigit(c2);
            HexChar(b / 16) == Upper(c1) && HexChar(b % 16) == Upper(c2)
  {
  }
}
