/** ObHexEscapeSqlStr: a string written as the inside of a SQL string literal, into a buffer of a given
    length, by doubling quotes (Oracle mode) or by backslash escapes (MySQL mode). */
module SqlEscape {
  import opened Arithmetic
  import opened Errors
  import opened TwosComplement

  const QUOTE: byte := 39
  const DOUBLE_QUOTE: byte := 34
  const BACKSLASH: byte := 92
  const NUL: byte := 0
  const TAB: byte := 9
  const NEWLINE: byte := 10
  const RETURN: byte := 13
  const LETTER_ZERO: byte := 48
  const LETTER_N: byte := 110
  const LETTER_R: byte := 114
  const LETTER_T: byte := 116

  datatype Mode = Oracle | MySql

  predicate NeedsEscape(mode: Mode, c: byte) {
    match mode
    case Oracle => c == QUOTE
    case MySql => c == BACKSLASH || c == NUL || c == QUOTE || c == DOUBLE_QUOTE
                  || c == NEWLINE || c == RETURN || c == TAB
  }

  /** The two characters that stand for c. */
  function EscapePair(mode: Mode, c: byte): seq<byte>
    requires NeedsEscape(mode, c)
  {
    match mode
    case Oracle => [QUOTE, QUOTE]
    case MySql => [BACKSLASH, if c == NUL then LETTER_ZERO else if c == NEWLINE then LETTER_N
                              else if c == RETURN then LETTER_R else if c == TAB then LETTER_T else c]
  }

  function EscapeChar(mode: Mode, c: byte): (r: seq<byte>)
    ensures |r| == if NeedsEscape(mode, c) then 2 else 1
  {
    if NeedsEscape(mode, c) then EscapePair(mode, c) else [c]
  }

  /** The full escaping. */
  function Escaped(mode: Mode, text: seq<byte>): seq<byte> {
    if text == [] then [] else EscapeChar(mode, text[0]) + Escaped(mode, text[1..])
  }

  lemma {:induction false} EscapedAppend(mode: Mode, a: seq<byte>, b: seq<byte>)
    ensures Escaped(mode, a + b) == Escaped(mode, a) + Escaped(mode, b)
  {
    if a == [] {
      assert a + b == b;
    } else {
      EscapedAppend(mode, a[1..], b);
      assert (a + b)[1..] == a[1..] + b;
    }
  }

  lemma EscapedStep(mode: Mode, text: seq<byte>, i: nat)
    requires i < |text|
    ensures Escaped(mode, text[..i + 1]) == Escaped(mode, text[..i]) + EscapeChar(mode, text[i])
  {
    EscapedAppend(mode, text[..i], [text[i]]);
    assert text[..i + 1] == text[..i] + [text[i]];
    assert Escaped(mode, [text[i]]) == EscapeChar(mode, text[i]) + Escaped(mode, []);
  }

  lemma EscapedPrefix(mode: Mode, text: seq<byte>, i: nat)
    requires i <= |text|
    ensures Escaped(mode, text[..i]) <= Escaped(mode, text)
  {
    EscapedAppend(mode, text[..i], text[i..]);
    assert text == text[..i] + text[i..];
  }

  // ------------------------------------------------------------------ writing into a buffer

  /** The buffer holds as much of full as fits, and nothing else has changed. */
  ghost predicate Written(buf: seq<byte>, before: seq<byte>, bufLen: int, pos: int, full: seq<byte>) {
    && |buf| == |before|
    && pos == Min(|full|, bufLen)
    && 0 <= pos <= |buf|
    && buf[..pos] == full[..pos]
    && buf[pos..] == before[pos..]
  }

  /** Writes one character, or as much of its escape pair as fits. */
  method PutPair(buf: array<byte>, bufLen: nat, pos: nat, first: byte, second: byte) returns (pos': nat)
    requires pos < bufLen <= buf.Length
    modifies buf
    ensures pos' == Min(pos + 2, bufLen)
    ensures buf[..pos] == old(buf[..pos]) && buf[pos'..] == old(buf[pos'..])
    ensures buf[pos..pos'] == [first, second][..pos' - pos]
  {
    pos' := pos;
    buf[pos'] := first;
    pos' := pos' + 1;
    if pos' < bufLen {
      buf[pos'] := second;
      pos' := pos' + 1;
    }
  }

  lemma WrittenStep(mode: Mode, text: seq<byte>, i: nat, bufLen: nat, before: seq<byte>,
                    buf: seq<byte>, pos: nat, buf': seq<byte>, pos': nat)
    requires i < |text| && pos < bufLen <= |buf| == |buf'|
    requires Written(buf, before, bufLen, pos, Escaped(mode, text[..i]))
    requires pos' == Min(pos + |EscapeChar(mode, text[i])|, bufLen)
    requires buf'[..pos] == buf[..pos] && buf'[pos'..] == buf[pos'..]
    requires buf'[pos..pos'] == EscapeChar(mode, text[i])[..pos' - pos]
    ensures Written(buf', before, bufLen, pos', Escaped(mode, text[..i + 1]))
  {
    hide Escaped, EscapeChar;
    EscapedStep(mode, text, i);
    var done, add := Escaped(mode, text[..i]), EscapeChar(mode, text[i]);
    assert pos == |done| && done == buf[..pos];
    assert buf'[..pos'] == buf'[..pos] + buf'[pos..pos'] == done + add[..pos' - pos] == (done + add)[..pos'];
    assert buf'[pos'..] == buf[pos..][pos' - pos..] == before[pos'..];
  }

  /** to_string. Writes exactly the first bytes of the full escaping, as many as the buffer takes. */
  method ToString(mode: Mode, text: seq<byte>, buf: array?<byte>, bufLen: int) returns (pos: int)
    requires buf != null ==> bufLen <= buf.Length
    modifies if buf == null then {} else {buf}
    ensures buf == null || bufLen <= 0 ==> pos == 0 && (buf != null ==> buf[..] == old(buf[..]))
    ensures buf != null && bufLen > 0 ==> Written(buf[..], old(buf[..]), bufLen, pos, Escaped(mode, text))
  {
    hide Escaped, EscapeChar, Written;
    pos := 0;
    if buf != null && bufLen > 0 {
      ghost var before := buf[..];
      WrittenNothing(mode, text, before, bufLen);
      if text != [] {
        var cur: nat := 0;
        if mode.Oracle? {
          while cur < |text| && pos < bufLen
            invariant cur <= |text|
            invariant 0 <= pos && Written(buf[..], before, bufLen, pos, Escaped(mode, text[..cur]))
          {
            ghost var was, wasPos := buf[..], pos;
            EscapeCharIs(mode, text[cur]);
            if text[cur] == QUOTE {
              pos := PutPair(buf, bufLen, pos, QUOTE, text[cur]);
            } else {
              buf[pos] := text[cur];
              pos := pos + 1;
            }
            WrittenStep(mode, text, cur, bufLen, before, was, wasPos, buf[..], pos);
            cur := cur + 1;
          }
        } else {
          while cur < |text| && pos < bufLen
            invariant cur <= |text|
            invariant 0 <= pos && Written(buf[..], before, bufLen, pos, Escaped(mode, text[..cur]))
          {
            ghost var was, wasPos := buf[..], pos;
            EscapeCharIs(mode, text[cur]);
            var c := text[cur];
            if c == BACKSLASH {
              pos := PutPair(buf, bufLen, pos, BACKSLASH, BACKSLASH);
            } else if c == NUL {
              pos := PutPair(buf, bufLen, pos, BACKSLASH, LETTER_ZERO);
            } else if c == QUOTE || c == DOUBLE_QUOTE {
              pos := PutPair(buf, bufLen, pos, BACKSLASH, c);
            } else if c == NEWLINE {
              pos := PutPair(buf, bufLen, pos, BACKSLASH, LETTER_N);
            } else if c == RETURN {
              pos := PutPair(buf, bufLen, pos, BACKSLASH, LETTER_R);
            } else if c == TAB {
              pos := PutPair(buf, bufLen, pos, BACKSLASH, LETTER_T);
            } else {
              buf[pos] := c;
              pos := pos + 1;
            }
            WrittenStep(mode, text, cur, bufLen, before, was, wasPos, buf[..], pos);
            cur := cur + 1;
          }
        }
        WrittenAll(mode, text, cur, bufLen, before, buf[..], pos);
      }
    }
  }

  lemma EscapeCharIs(mode: Mode, c: byte)
    ensures EscapeChar(mode, c) == if NeedsEscape(mode, c) then EscapePair(mode, c) else [c]
  {
  }

  lemma WrittenNothing(mode: Mode, text: seq<byte>, before: seq<byte>, bufLen: int)
    requires bufLen > 0
    ensures Written(before, before, bufLen, 0, Escaped(mode, text[..0]))
    ensures text == [] ==> Written(before, before, bufLen, 0, Escaped(mode, text))
  {
  }

  /** The loop stops at the end of the text or with the buffer full: either way the job is done. */
  lemma WrittenAll(mode: Mode, text: seq<byte>, i: nat, bufLen: nat, before: seq<byte>, buf: seq<byte>, pos: int)
    requires i <= |text| && Written(buf, before, bufLen, pos, Escaped(mode, text[..i]))
    requires i == |text| || pos >= bufLen
    ensures Written(buf, before, bufLen, pos, Escaped(mode, text))
  {
    hide Escaped;
    EscapedPrefix(mode, text, i);
    if i == |text| {
      assert text[..i] == text;
    } else {
      var part, full := Escaped(mode, text[..i]), Escaped(mode, text);
      assert full[..pos] == full[..|part|][..pos] == part[..pos];
    }
  }

  /** get_extra_length. */
  method GetExtraLength(mode: Mode, text: seq<byte>) returns (extra: int)
    ensures |Escaped(mode, text)| == |text| + extra
  {
    hide Escaped;
    extra := 0;
    assert Escaped(mode, text[..0]) == [] by { EscapedNone(mode, text); }
    for cur := 0 to |text|
      invariant |Escaped(mode, text[..cur])| == cur + extra
    {
      EscapedStep(mode, text, cur);
      if NeedsEscape(mode, text[cur]) {
        extra := extra + 1;
      }
    }
    assert text[..|text|] == text;
  }

  lemma EscapedNone(mode: Mode, text: seq<byte>)
    ensures Escaped(mode, text[..0]) == []
  {
  }

  // ------------------------------------------------------------------ reading the literal back

  /** What a backslash and c stand for in a literal (MySQL Reference Manual, section 9.1.1). */
  function BackslashMeaning(c: byte): seq<byte> {
    if c == LETTER_ZERO then [NUL]
    else if c == LETTER_N then [NEWLINE]
    else if c == LETTER_R then [RETURN]
    else if c == LETTER_T then [TAB]
    else if c == 98 then [8]
    else if c == 90 then [26]
    else if c == 37 || c == 95 then [BACKSLASH, c]
    else [c]
  }

  /** Reads a quoted literal from just after its opening quote: its value and what follows it. A
      doubled quote stands for one quote; in MySQL mode a backslash escapes the next character. */
  function ReadLiteral(mode: Mode, s: seq<byte>): Option<(seq<byte>, seq<byte>)>
    decreases |s|
  {
    if s == [] then None
    else if s[0] == QUOTE then
      if |s| > 1 && s[1] == QUOTE then Prepend([QUOTE], ReadLiteral(mode, s[2..])) else Some(([], s[1..]))
    else if mode.MySql? && s[0] == BACKSLASH then
      if |s| == 1 then None else Prepend(BackslashMeaning(s[1]), ReadLiteral(mode, s[2..]))
    else Prepend([s[0]], ReadLiteral(mode, s[1..]))
  }

  function Prepend(front: seq<byte>, r: Option<(seq<byte>, seq<byte>)>): Option<(seq<byte>, seq<byte>)> {
    match r
    case None => None
    case Some(p) => Some((front + p.0, p.1))
  }

  /** Reading what stands for c yields c. */
  lemma ReadChar(mode: Mode, c: byte, tail: seq<byte>)
    ensures ReadLiteral(mode, EscapeChar(mode, c) + tail) == Prepend([c], ReadLiteral(mode, tail))
  {
    var head := EscapeChar(mode, c);
    var s := head + tail;
    assert s[0] == head[0];
    if NeedsEscape(mode, c) {
      assert s[1] == head[1] && s[2..] == tail;
    } else {
      assert s[1..] == tail;
    }
  }

  lemma ReadEnd(mode: Mode, rest: seq<byte>)
    requires rest == [] || rest[0] != QUOTE
    ensures ReadLiteral(mode, [QUOTE] + rest) == Some(([], rest))
  {
    var s := [QUOTE] + rest;
    assert s[1..] == rest && (rest != [] ==> s[1] == rest[0]);
  }

  /** The escaped text between quotes is read as one literal: its value is the text, and the literal
      ends at the closing quote, whatever the text contains. */
  lemma {:induction false} ReadEscaped(mode: Mode, text: seq<byte>, rest: seq<byte>)
    requires rest == [] || rest[0] != QUOTE
    ensures ReadLiteral(mode, Escaped(mode, text) + [QUOTE] + rest) == Some((text, rest))
  {
    hide ReadLiteral, EscapeChar;
    var s := Escaped(mode, text) + [QUOTE] + rest;
    if text == [] {
      assert s == [QUOTE] + rest;
      ReadEnd(mode, rest);
    } else {
      ReadEscaped(mode, text[1..], rest);
      var tail := Escaped(mode, text[1..]) + [QUOTE] + rest;
      ReadChar(mode, text[0], tail);
      assert s == EscapeChar(mode, text[0]) + tail;
      assert [text[0]] + text[1..] == text;
    }
  }

  /** At position i of s stands the second character of a backslash pair. */
  predicate AfterBackslash(s: seq<byte>, i: nat)
    requires i < |s|
  {
    i > 0 && s[i - 1] == BACKSLASH
  }

  /** No character that ends or breaks a literal stands in the escaping by itself: in MySQL mode no NUL,
      newline, return or tab at all, and no quote of either kind without a backslash before it. */
  lemma {:induction false} NothingRaw(text: seq<byte>)
    ensures forall i :: 0 <= i < |Escaped(MySql, text)| ==>
              var c := Escaped(MySql, text)[i];
              && c != 0 && c != 9 && c != 10 && c != 13
              && (c == 34 || c == 39 ==> AfterBackslash(Escaped(MySql, text), i))
  {
    if text != [] {
      NothingRaw(text[1..]);
      var head, tail := EscapeChar(MySql, text[0]), Escaped(MySql, text[1..]);
      var s := head + tail;
      forall i | 0 <= i < |s|
        ensures s[i] != 0 && s[i] != 9 && s[i] != 10 && s[i] != 13
        ensures s[i] == 34 || s[i] == 39 ==> AfterBackslash(s, i)
      {
        if i >= |head| {
          assert s[i] == tail[i - |head|];
          if i > |head| {
            assert s[i - 1] == tail[i - |head| - 1];
          }
        }
      }
    }
  }

  /** The pairs, character by character: backslash with 0, t, n, r, a quote of either kind or itself. */
  lemma PairTable()
    ensures Escaped(MySql, [0]) == [92, 48] && Escaped(MySql, [9]) == [92, 116]
    ensures Escaped(MySql, [10]) == [92, 110] && Escaped(MySql, [13]) == [92, 114]
    ensures Escaped(MySql, [34]) == [92, 34] && Escaped(MySql, [39]) == [92, 39]
    ensures Escaped(MySql, [92]) == [92, 92] && Escaped(Oracle, [39]) == [39, 39]
  {
    assert forall m, c: byte :: Escaped(m, [c]) == EscapeChar(m, c) + Escaped(m, []);
  }

  /** Text that needs no escaping is left as it is. */
  lemma {:induction false} PlainUnchanged(mode: Mode, text: seq<byte>)
    ensures Escaped(mode, text) == text
       <==> forall i :: 0 <= i < |text| ==>
              text[i] != 39 && (mode.MySql? ==> text[i] !in [0, 9, 10, 13, 34, 92])
  {
    hide EscapePair;
    if text != [] {
      PlainUnchanged(mode, text[1..]);
      EscapedNoShorter(mode, text[1..]);
      if Escaped(mode, text) == text {
        assert |EscapeChar(mode, text[0])| == 1;
        assert Escaped(mode, text)[1..] == Escaped(mode, text[1..]);
        assert forall i :: 0 < i < |text| ==> text[i] == text[1..][i - 1];
      } else if !NeedsEscape(mode, text[0]) {
        assert Escaped(mode, text) == [text[0]] + Escaped(mode, text[1..]);
        assert text == [text[0]] + text[1..];
      }
    }
  }

  lemma {:induction false} EscapedNoShorter(mode: Mode, text: seq<byte>)
    ensures |Escaped(mode, text)| >= |text|
  {
    if text != [] {
      EscapedNoShorter(mode, text[1..]);
    }
  }

  /** Different texts have different escapings. */
  lemma EscapedInjective(mode: Mode, a: seq<byte>, b: seq<byte>)
    requires Escaped(mode, a) == Escaped(mode, b)
    ensures a == b
  {
    ReadEscaped(mode, a, []);
    ReadEscaped(mode, b, []);
  }
}
