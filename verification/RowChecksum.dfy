/** ObRowChecksumValue: the column checksum list "id:sum,id:sum,..." read from a C string. */
module RowChecksum {
  import opened Buffers
  import opened Errors
  import opened TwosComplement
  import opened ObjCompare

  const NUL: byte := 0
  const COMMA: byte := 44
  const COLON: byte := 58
  const MINUS: byte := 45
  const PLUS: byte := 43
  const ULONG_MAX: uint64 := 0xFFFF_FFFF_FFFF_FFFF

  type ColumnChecksum = (uint64, uint64)

  /** The characters of a C string, without the terminator. */
  type CString = s: seq<byte> | NUL !in s

  /** The character at a position, the terminator included and nothing beyond it. */
  function At(s: CString, p: nat): (c: byte)
    requires p <= |s|
    ensures c == NUL <==> p == |s|
  {
    if p == |s| then NUL else assert s[p] in s; s[p]
  }

  // ------------------------------------------------------------------ strtoul

  predicate IsSpace(c: byte) {
    c == 32 || 9 <= c <= 13
  }

  predicate IsDigit(c: byte) {
    48 <= c <= 57
  }

  function SkipSpaces(s: CString, p: nat): (e: nat)
    requires p <= |s|
    ensures p <= e <= |s| && forall k :: p <= k < e ==> s[k] != COMMA
    decreases |s| - p
  {
    if IsSpace(At(s, p)) then SkipSpaces(s, p + 1) else p
  }

  /** The digits from p on, added to v, and the position after them. */
  function Digits(s: CString, p: nat, v: nat): (r: (nat, nat))
    requires p <= |s|
    ensures p <= r.1 <= |s| && forall k :: p <= k < r.1 ==> s[k] != COMMA
    decreases |s| - p
  {
    if IsDigit(At(s, p)) then Digits(s, p + 1, 10 * v + (s[p] - 48)) else (v, p)
  }

  /** strtoul in base ten: blanks, a sign, digits. Without digits the value is 0 and nothing is read;
      past the largest value it saturates, otherwise a minus sign negates modulo 2^64. */
  function Strtoul(s: CString, p: nat): (r: (uint64, nat))
    requires p <= |s|
    ensures p <= r.1 <= |s| && forall k :: p <= k < r.1 ==> s[k] != COMMA
  {
    var q := SkipSpaces(s, p);
    var signed := At(s, q) == MINUS || At(s, q) == PLUS;
    var start := if signed then q + 1 else q;
    var (v, e) := Digits(s, start, 0);
    if e == start then (0, p)
    else if v > ULONG_MAX then (ULONG_MAX, e)
    else if At(s, q) == MINUS then ((0x1_0000_0000_0000_0000 - v) % 0x1_0000_0000_0000_0000, e)
    else (v, e)
  }

  // ------------------------------------------------------------------ counting

  /** Commas at position p and after. */
  function Commas(s: seq<byte>, p: nat): nat
    requires p <= |s|
    decreases |s| - p
  {
    if p == |s| then 0 else (if s[p] == COMMA then 1 else 0) + Commas(s, p + 1)
  }

  lemma {:induction false} CommasSkip(s: seq<byte>, p: nat, q: nat)
    requires p <= q <= |s| && forall k :: p <= k < q ==> s[k] != COMMA
    ensures Commas(s, p) == Commas(s, q)
    decreases q - p
  {
    if p < q {
      CommasSkip(s, p + 1, q);
    }
  }

  /** strchr for a comma. */
  function Strchr(s: CString, p: nat): (r: Option<nat>)
    requires p <= |s|
    ensures r.Some? ==> p <= r.value < |s| && s[r.value] == COMMA && forall k :: p <= k < r.value ==> s[k] != COMMA
    ensures r.None? ==> forall k :: p <= k < |s| ==> s[k] != COMMA
    decreases |s| - p
  {
    if p == |s| then None else if s[p] == COMMA then Some(p) else Strchr(s, p + 1)
  }

  // ------------------------------------------------------------------ the grammar

  /** One entry "number:number" from position p: the pair, and where its closing comma or the end is. */
  function Entry(s: CString, p: nat): (r: Option<(ColumnChecksum, nat)>)
    requires p <= |s|
    ensures r.Some? ==> && p <= r.value.1 <= |s| && (forall k :: p <= k < r.value.1 ==> s[k] != COMMA)
                        && (At(s, r.value.1) == NUL || At(s, r.value.1) == COMMA)
  {
    var (id, afterId) := Strtoul(s, p);
    if At(s, afterId) != COLON then None
    else
      var (sum, afterSum) := Strtoul(s, afterId + 1);
      if At(s, afterSum) != COMMA && At(s, afterSum) != NUL then None else Some(((id, sum), afterSum))
  }

  /** The list from position p on: entries separated by commas. */
  function ParseFrom(s: CString, p: nat): (r: Option<seq<ColumnChecksum>>)
    requires p <= |s|
    decreases |s| - p
  {
    match Entry(s, p)
    case None => None
    case Some((e, q)) => if At(s, q) == NUL then Some([e]) else Joined([e], ParseFrom(s, q + 1))
  }

  /** Entries already read, put in front of the rest of the list. */
  function Joined(done: seq<ColumnChecksum>, rest: Option<seq<ColumnChecksum>>): Option<seq<ColumnChecksum>> {
    match rest
    case None => None
    case Some(r) => Some(done + r)
  }

  /** A list has one entry more than commas, so the count taken beforehand is its length. */
  lemma {:induction false} ParseLength(s: CString, p: nat)
    requires p <= |s|
    ensures ParseFrom(s, p).Some? ==> |ParseFrom(s, p).value| == Commas(s, p) + 1
    decreases |s| - p
  {
    hide Entry;
    if Entry(s, p).Some? {
      var q := Entry(s, p).value.1;
      CommasSkip(s, p, q);
      if q < |s| {
        ParseLength(s, q + 1);
      }
    }
  }

  // ------------------------------------------------------------------ the parser

  class RowChecksumValue {
    var columnCount: int
    var columns: array?<ColumnChecksum>

    constructor ()
      ensures columnCount == 0 && columns == null
    {
      columnCount := 0;
      columns := null;
    }

    /** string2column_checksum; None is the null pointer. */
    method String2ColumnChecksum(str: Option<CString>) returns (ret: ObRet)
      modifies this
      ensures str.None? || str.value == [] ==> ret == Success && columnCount == 0 && columns == null
      ensures str.Some? && str.value != [] ==>
                && columnCount == Commas(str.value, 0) + 1
                && ret == (if ParseFrom(str.value, 0).Some? then Success else InvalidDateFormat)
                && (ret == Success ==>
                      columns != null && fresh(columns) && columns[..] == ParseFrom(str.value, 0).value)
                && (ret != Success ==> columns == null)
    {
      var count: int := if str.Some? && |str.value| > 0 then 1 else 0;
      var p: Option<nat> := if str.Some? then Some(0) else None;
      while p.Some? && Strchr(str.value, p.value).Some?
        invariant p.Some? ==> str.Some? && p.value <= |str.value|
        invariant p.None? <==> str.None?
        invariant p.None? ==> count == 0
        invariant str.Some? && str.value != [] ==>
                    count > 0 && count + Commas(str.value, p.value) == Commas(str.value, 0) + 1
        invariant str.Some? && str.value == [] ==> count == 0
        decreases if p.Some? then |str.value| - p.value else 0
      {
        var hit := Strchr(str.value, p.value).value;
        CommasSkip(str.value, p.value, hit);
        p := Some(hit + 1);
        count := count + 1;
      }
      columnCount := count;
      ret := Success;
      if count == 0 {
        columns := null;
      } else {
        var s := str.value;
        CommasSkip(s, p.value, |s|);
        ret := Fill(s, count);
      }
    }

    /** Fills the array. The cursor p only passes the terminator after the last entry, because as many
        commas lie ahead of it as entries remain after the current one. */
    method Fill(s: CString, count: nat) returns (ret: ObRet)
      requires count == Commas(s, 0) + 1
      modifies `columns
      ensures ret == (if ParseFrom(s, 0).Some? then Success else InvalidDateFormat)
      ensures ret == Success ==> columns != null && fresh(columns) && columns[..] == ParseFrom(s, 0).value
      ensures ret != Success ==> columns == null
    {
      hide Strtoul, ParseFrom;
      var list := new ColumnChecksum[count];
      var p: nat := 0;
      var i: nat := 0;
      ret := Success;
      ParseLength(s, 0);
      JoinedNothing(ParseFrom(s, 0));
      while i < count && ret == Success
        invariant i <= count
        invariant ret == Success && i < count ==> p <= |s| && Commas(s, p) == count - 1 - i
        invariant ret == Success ==> p <= |s| + 1 && (p == |s| + 1 ==> i == count)
        invariant ret == Success && i < count ==> ParseFrom(s, 0) == Joined(list[..i], ParseFrom(s, p))
        invariant ret == Success && i == count ==> ParseFrom(s, 0) == Some(list[..])
        invariant ret == Success || (ret == InvalidDateFormat && ParseFrom(s, 0).None?)
        decreases count - i, ret == Success
      {
        ghost var done, start := list[..i], p;
        var (first, end) := Strtoul(s, p);
        list[i] := (first, 0);
        if At(s, end) != COLON {
          ParseStops(s, start);
          ret := InvalidDateFormat;
        } else {
          end := end + 1;
          p := end;
          var (second, end2) := Strtoul(s, p);
          list[i] := (first, second);
          if At(s, end2) != COMMA && At(s, end2) != NUL {
            ParseStops(s, start);
            ret := InvalidDateFormat;
          } else {
            assert list[..i + 1] == done + [(first, second)];
            JoinedStep(s, start, done);
            CommasSkip(s, start, end2);
            p := end2 + 1;
            i := i + 1;
            assert i == count ==> list[..i] == list[..];
          }
        }
      }
      columns := if ret == Success then list else null;
    }
  }

  lemma ParseStops(s: CString, p: nat)
    requires p <= |s| && Entry(s, p).None?
    ensures ParseFrom(s, p).None?
  {
  }

  lemma JoinedNothing(rest: Option<seq<ColumnChecksum>>)
    ensures Joined([], rest) == rest
  {
    if rest.Some? {
      assert [] + rest.value == rest.value;
    }
  }

  lemma JoinedStep(s: CString, p: nat, done: seq<ColumnChecksum>)
    requires p <= |s| && Entry(s, p).Some?
    ensures var (e, q) := Entry(s, p).value;
            Joined(done, ParseFrom(s, p))
            == if At(s, q) == NUL then Some(done + [e]) else Joined(done + [e], ParseFrom(s, q + 1))
  {
    hide Entry;
    var (e, q) := Entry(s, p).value;
    if q < |s| && ParseFrom(s, q + 1).Some? {
      var rest := ParseFrom(s, q + 1).value;
      assert done + ([e] + rest) == done + [e] + rest;
    }
  }

  // ------------------------------------------------------------------ the canonical text

  function DecimalText(n: nat): (r: seq<byte>)
    ensures |r| > 0 && forall k :: 0 <= k < |r| ==> IsDigit(r[k])
  {
    if n < 10 then [48 + n] else DecimalText(n / 10) + [48 + n % 10]
  }

  function EntryText(e: ColumnChecksum): seq<byte> {
    DecimalText(e.0) + [COLON] + DecimalText(e.1)
  }

  function ListText(list: seq<ColumnChecksum>): seq<byte>
    requires list != []
  {
    if |list| == 1 then EntryText(list[0]) else EntryText(list[0]) + [COMMA] + ListText(list[1..])
  }

  lemma {:induction false} DigitsOfText(s: CString, p: nat, n: nat)
    requires Stands(s, p, DecimalText(n))
    requires var e := p + |DecimalText(n)|; !IsDigit(At(s, e))
    ensures Digits(s, p, 0) == (n, p + |DecimalText(n)|)
  {
    DigitsThrough(s, p, n);
  }

  lemma {:induction false} DigitsThrough(s: CString, p: nat, n: nat)
    requires Stands(s, p, DecimalText(n))
    ensures Digits(s, p, 0) == Digits(s, p + |DecimalText(n)|, n)
    decreases n
  {
    var t := DecimalText(n);
    if n < 10 {
      assert s[p] == s[p..p + 1][0];
    } else {
      var u := DecimalText(n / 10);
      assert s[p..p + |u|] == s[p..p + |t|][..|u|] == u;
      assert s[p + |u|] == s[p..p + |t|][|u|] == 48 + n % 10;
      DigitsThrough(s, p, n / 10);
      var q := p + |u|;
      assert At(s, q) == s[q];
    }
  }

  lemma StrtoulOfText(s: CString, p: nat, n: uint64)
    requires Stands(s, p, DecimalText(n))
    requires !IsDigit(At(s, p + |DecimalText(n)|))
    ensures Strtoul(s, p) == (n, p + |DecimalText(n)|)
  {
    var t := DecimalText(n);
    assert s[p] == s[p..p + |t|][0] == t[0];
    DigitsOfText(s, p, n);
  }

  /** One blank or sign before the digits: a plus sign changes nothing, a minus sign negates modulo 2^64. */
  lemma StrtoulSigned(s: CString, p: nat, n: uint64)
    requires p < |s| && Stands(s, p + 1, DecimalText(n))
    requires !IsDigit(At(s, p + 1 + |DecimalText(n)|))
    ensures s[p] in [9, 10, 11, 12, 13, 32, 43] ==> Strtoul(s, p) == (n, p + 1 + |DecimalText(n)|)
    ensures s[p] == 45 ==>
              Strtoul(s, p) == (if n == 0 then 0 else 0x1_0000_0000_0000_0000 - n, p + 1 + |DecimalText(n)|)
  {
    hide DecimalText, Digits;
    StandsFirst(s, p + 1, DecimalText(n));
    assert SkipSpaces(s, p + 1) == p + 1;
    DigitsOfText(s, p + 1, n);
  }

  /** Nothing is read where no number starts. */
  lemma StrtoulNothing(s: CString, p: nat)
    requires p <= |s| && !IsDigit(At(s, p)) && At(s, p) !in [9, 10, 11, 12, 13, 32, 43, 45]
    ensures Strtoul(s, p) == (0, p)
  {
  }

  /** Past 2^64 - 1 the value saturates. */
  lemma StrtoulSaturates(s: CString, p: nat, n: nat)
    requires n > 0xFFFF_FFFF_FFFF_FFFF && Stands(s, p, DecimalText(n)) && !IsDigit(At(s, p + |DecimalText(n)|))
    ensures Strtoul(s, p) == (0xFFFF_FFFF_FFFF_FFFF, p + |DecimalText(n)|)
  {
    hide DecimalText, Digits;
    StandsFirst(s, p, DecimalText(n));
    DigitsOfText(s, p, n);
  }

  /** "12:3,4:5". */
  lemma ListTextExample()
    ensures ListText([(12, 3), (4, 5)]) == [49, 50, 58, 51, 44, 52, 58, 53]
  {
    assert DecimalText(12) == DecimalText(1) + [50];
    assert [(12 as uint64, 3 as uint64), (4, 5)][1..] == [(4, 5)];
  }

  lemma EntryOfText(s: CString, p: nat, e: ColumnChecksum)
    requires Stands(s, p, EntryText(e))
    requires var q := p + |EntryText(e)|; At(s, q) == NUL || At(s, q) == COMMA
    ensures Entry(s, p) == Some((e, p + |EntryText(e)|))
  {
    hide Strtoul, DecimalText, Stands;
    var idText, sumText := DecimalText(e.0), DecimalText(e.1);
    assert EntryText(e) == idText + ([COLON] + sumText);
    StandsParts(s, p, idText, [COLON] + sumText);
    var q := p + |idText|;
    StandsParts(s, q, [COLON], sumText);
    StandsFirst(s, q, [COLON]);
    StrtoulOfText(s, p, e.0);
    StrtoulOfText(s, q + 1, e.1);
  }

  /** Reading the text of a list gives the list back, for all ids and checksums. */
  lemma {:induction false} ParseText(s: CString, p: nat, list: seq<ColumnChecksum>)
    requires list != [] && Stands(s, p, ListText(list)) && p + |ListText(list)| == |s|
    ensures ParseFrom(s, p) == Some(list)
    decreases |list|
  {
    hide Entry, EntryText, Stands;
    var e := list[0];
    var q := p + |EntryText(e)|;
    if |list| == 1 {
      EntryOfText(s, p, e);
      assert list == [e];
    } else {
      var rest := ListText(list[1..]);
      assert ListText(list) == EntryText(e) + ([COMMA] + rest);
      StandsParts(s, p, EntryText(e), [COMMA] + rest);
      StandsParts(s, q, [COMMA], rest);
      StandsFirst(s, q, [COMMA]);
      EntryOfText(s, p, e);
      ParseText(s, q + 1, list[1..]);
      assert list == [e] + list[1..];
    }
  }

  lemma {:induction false} ListTextNotNul(list: seq<ColumnChecksum>)
    requires list != []
    ensures NUL !in ListText(list) && ListText(list) != []
  {
    if |list| > 1 {
      ListTextNotNul(list[1..]);
    }
  }

  lemma ParsePrinted(list: seq<ColumnChecksum>)
    requires list != []
    ensures NUL !in ListText(list)
    ensures ParseFrom(ListText(list), 0) == Some(list)
  {
    ListTextNotNul(list);
    ParseText(ListText(list), 0, list);
  }
}
