/** ObNewRow::deep_copy: a row copied into one buffer, cell array first, then the payload of each
    cell, then the projector. */
module Row {
  import opened Buffers
  import opened Errors
  import opened TwosComplement

  // ------------------------------------------------------------------ cells

  /** The values of ObObjType, by their number. */
  type ObjType = t: int | 0 <= t <= 50

  const NULL_TYPE: ObjType := 0
  const NUMBER: ObjType := 15
  const UNUMBER: ObjType := 16
  const VARCHAR: ObjType := 22
  const HEX_STRING: ObjType := 24
  const EXTEND: ObjType := 25
  const UNKNOWN: ObjType := 26
  const TINY_TEXT: ObjType := 27
  const LONG_TEXT: ObjType := 30
  const RAW: ObjType := 39
  const NUMBER_FLOAT: ObjType := 42
  const NVARCHAR2: ObjType := 43
  const NCHAR: ObjType := 44
  const UROWID: ObjType := 45
  const LOB: ObjType := 46
  const JSON: ObjType := 47
  const GEOMETRY: ObjType := 48
  const USER_DEFINED: ObjType := 49
  const DECIMAL_INT: ObjType := 50

  /** ob_is_string_type: a range of type numbers. */
  predicate IsStringType(t: ObjType) {
    VARCHAR <= t <= HEX_STRING
  }

  /** ob_is_string_tc: the string class, which also has the two national types. */
  predicate IsStringClass(t: ObjType) {
    IsStringType(t) || t == NVARCHAR2 || t == NCHAR
  }

  predicate IsNumberClass(t: ObjType) {
    t == NUMBER || t == UNUMBER || t == NUMBER_FLOAT
  }

  /** The four text types. */
  predicate IsText(t: ObjType) {
    TINY_TEXT <= t <= LONG_TEXT
  }

  /** The types whose value word is a pointer. */
  predicate HoldsPointer(t: ObjType) {
    IsStringClass(t) || IsText(t) || IsNumberClass(t) || t == RAW || t == UROWID || t == LOB || t == JSON
    || t == GEOMETRY || t == USER_DEFINED || t == DECIMAL_INT
  }

  datatype CollationLevel = Explicit | NoLevel | Implicit | SysConst | Coercible | Numeric | Ignorable | InvalidLevel

  const CS_TYPE_INVALID: int := 0
  const CS_TYPE_BINARY: int := 63

  datatype Meta = Meta(ty: ObjType, level: CollationLevel, csType: int, scale: int)

  /** What the value word of a cell holds. */
  datatype Value =
    | Inline(word: int)
    | External(bytes: seq<byte>)  // a pointer outside the buffer being filled
    | InBuffer(at: nat)           // a pointer into it

  /** lenWord is the word shared by the byte length and, for numbers, the number descriptor. */
  datatype Obj = Obj(meta: Meta, lenWord: nat, value: Value)

  const SIZEOF_OBJ: nat := 16
  const SIZEOF_INT32: nat := 4

  /** The number of digits in a number descriptor, its low byte. */
  function DigitCount(desc: nat): nat {
    desc % 256
  }

  // ------------------------------------------------------------------ sizes

  /** get_deep_copy_size of a cell. */
  function CellSize(o: Obj): nat {
    var t := o.meta.ty;
    if IsStringClass(t) || t == RAW || t == UROWID || t == LOB || t == JSON || t == GEOMETRY
       || t == USER_DEFINED || t == DECIMAL_INT
    then o.lenWord
    else if IsNumberClass(t) then SIZEOF_INT32 * DigitCount(o.lenWord)
    else 0
  }

  /** Four bytes for every digit of a number, the length word for the other types that are counted. */
  lemma CellSizeByType(o: Obj)
    ensures o.meta.ty in {15, 16, 42} ==> CellSize(o) == 4 * (o.lenWord % 256)
    ensures o.meta.ty in {22, 23, 24, 39, 43, 44, 45, 46, 47, 48, 49, 50} ==> CellSize(o) == o.lenWord
    ensures o.meta.ty !in {15, 16, 22, 23, 24, 39, 42, 43, 44, 45, 46, 47, 48, 49, 50} ==> CellSize(o) == 0
  {
  }

  /** The types whose payload deep_copy moves; all others are copied as they stand. */
  predicate CopiesPayload(t: ObjType) {
    IsStringType(t) || t == JSON || t == GEOMETRY || IsNumberClass(t) || t == UROWID || t == DECIMAL_INT
  }

  function PayloadSize(o: Obj): nat {
    var t := o.meta.ty;
    if !CopiesPayload(t) then 0
    else if IsNumberClass(t) then DigitCount(o.lenWord) * SIZEOF_INT32
    else o.lenWord
  }

  /** The types that are counted but not copied. */
  predicate CountedOnly(t: ObjType) {
    t == NVARCHAR2 || t == NCHAR || t == RAW || t == LOB || t == USER_DEFINED
  }

  lemma CellSizeCoversPayload(o: Obj)
    ensures PayloadSize(o) <= CellSize(o)
    ensures PayloadSize(o) == CellSize(o) <==> !(CountedOnly(o.meta.ty) && o.lenWord > 0)
  {
  }

  /** A source cell: its payload lies outside the buffer and has the length the cell says. */
  predicate SourceCell(o: Obj) {
    CopiesPayload(o.meta.ty) ==> o.value.External? && |o.value.bytes| == PayloadSize(o)
  }

  // ------------------------------------------------------------------ copying one cell

  /** ObObjMeta::set_type. */
  function SetType(m: Meta, t: ObjType): Meta {
    if t == NULL_TYPE then m.(ty := t, level := Ignorable, csType := CS_TYPE_BINARY)
    else if t == UNKNOWN || t == EXTEND then m.(ty := t, level := InvalidLevel, csType := CS_TYPE_INVALID)
    else if t == HEX_STRING then m.(ty := t, csType := CS_TYPE_BINARY)
    else if !IsStringType(t) then m.(ty := t, level := Numeric, csType := CS_TYPE_BINARY)
    else m.(ty := t)
  }

  /** The metadata after deep_copy: assigned, then overwritten by the setter of the type. */
  function CopiedMeta(m: Meta): Meta {
    var t := m.ty;
    if IsStringType(t) || t == JSON || t == GEOMETRY then
      SetType(m, t).(level := if m.level != InvalidLevel then m.level else Implicit)
    else if IsNumberClass(t) then SetType(m, t).(level := Numeric)
    else if t == UROWID then m.(level := InvalidLevel, csType := CS_TYPE_BINARY)
    else if t == DECIMAL_INT then m.(level := Numeric, csType := CS_TYPE_BINARY)
    else m
  }

  /** The copy keeps type and scale always, and the collation exactly when the source had the one
      the setter writes. */
  lemma CopiedMetaIff(m: Meta)
    ensures CopiedMeta(m).ty == m.ty && CopiedMeta(m).scale == m.scale
    ensures CopiedMeta(m) == m <==>
            && (IsStringType(m.ty) || m.ty == JSON || m.ty == GEOMETRY ==> m.level != InvalidLevel)
            && (CopiesPayload(m.ty) && m.ty != VARCHAR && m.ty != VARCHAR + 1 ==> m.csType == CS_TYPE_BINARY)
            && (IsNumberClass(m.ty) || m.ty == DECIMAL_INT ==> m.level == Numeric)
            && (m.ty == UROWID ==> m.level == InvalidLevel)
  {
  }

  /** The collation otherwise: binary but for the character strings, with the level of the source for
      strings, JSON and geometry unless it is invalid, and a fixed level for the others. */
  lemma CopiedMetaIs(m: Meta)
    ensures !CopiesPayload(m.ty) ==> CopiedMeta(m) == m
    ensures CopiesPayload(m.ty) ==> CopiedMeta(m).csType == if m.ty == 22 || m.ty == 23 then m.csType else 63
    ensures m.ty in {22, 23, 24, 47, 48} && m.level != InvalidLevel ==> CopiedMeta(m).level == m.level
    ensures m.ty in {22, 23, 24, 47, 48} && m.level == InvalidLevel ==> CopiedMeta(m).level == Implicit
    ensures m.ty in {15, 16, 42, 50} ==> CopiedMeta(m).level == Numeric
    ensures m.ty == 45 ==> CopiedMeta(m).level == InvalidLevel
  {
  }

  /** The copy of a cell whose payload went to position at. */
  function CopiedCell(src: Obj, at: nat): Obj {
    if CopiesPayload(src.meta.ty) then Obj(CopiedMeta(src.meta), src.lenWord, InBuffer(at)) else src
  }

  /** The payload a cell of the copy points to. */
  function PayloadOf(o: Obj, buf: seq<byte>): seq<byte>
    requires o.value.InBuffer? ==> o.value.at + PayloadSize(o) <= |buf|
  {
    match o.value
    case Inline(_) => []
    case External(bytes) => bytes
    case InBuffer(at) => buf[at..at + PayloadSize(o)]
  }

  /** ObObj::deep_copy. */
  method DeepCopyCell(src: Obj, buf: array<byte>, size: nat, pos: nat) returns (ret: ObRet, dst: Obj, pos': nat)
    requires SourceCell(src) && size <= buf.Length && pos <= size
    modifies buf
    ensures ret == (if pos + PayloadSize(src) <= size then Success else BufNotEnough)
    ensures ret == Success ==>
              && pos' == pos + PayloadSize(src) && dst == CopiedCell(src, pos)
              && Untouched(old(buf[..]), buf[..], pos, pos')
              && (CopiesPayload(src.meta.ty) ==> Stands(buf[..], pos, src.value.bytes))
    ensures ret != Success ==> pos' == pos && buf[..] == old(buf[..])
  {
    ret, dst, pos' := Success, src, pos;
    var t := src.meta.ty;
    if IsStringType(t) || t == JSON || t == GEOMETRY || t == UROWID || t == DECIMAL_INT {
      if size < pos + src.lenWord {
        ret := BufNotEnough;
      } else {
        Memcpy(buf, pos, src.value.bytes);
        dst := Obj(CopiedMeta(src.meta), src.lenWord, InBuffer(pos));
        pos' := pos + src.lenWord;
      }
    } else if IsNumberClass(t) {
      var numberSize := DigitCount(src.lenWord) * SIZEOF_INT32;
      if size < pos + numberSize {
        ret := BufNotEnough;
      } else {
        Memcpy(buf, pos, src.value.bytes);
        dst := Obj(CopiedMeta(src.meta), src.lenWord, InBuffer(pos));
        pos' := pos + numberSize;
      }
    }
  }

  method Memcpy(buf: array<byte>, at: nat, bytes: seq<byte>)
    requires at + |bytes| <= buf.Length
    modifies buf
    ensures Untouched(old(buf[..]), buf[..], at, at + |bytes|) && Stands(buf[..], at, bytes)
  {
    forall i | 0 <= i < |bytes| {
      buf[at + i] := bytes[i];
    }
  }

  // ------------------------------------------------------------------ rows

  /** A row to copy from. */
  datatype SourceRow = SourceRow(cells: seq<Obj>, projector: seq<int>)

  function CellSizes(cells: seq<Obj>): nat {
    if cells == [] then 0 else CellSizes(cells[..|cells| - 1]) + CellSize(cells[|cells| - 1])
  }

  function PayloadSizes(cells: seq<Obj>): nat {
    if cells == [] then 0 else PayloadSizes(cells[..|cells| - 1]) + PayloadSize(cells[|cells| - 1])
  }

  /** What get_deep_copy_size adds up. */
  function DeepCopySize(row: SourceRow): nat {
    SIZEOF_OBJ * |row.cells| + SIZEOF_INT32 * |row.projector| + CellSizes(row.cells)
  }

  /** What a copy really uses. */
  function UsedSize(row: SourceRow): nat {
    SIZEOF_OBJ * |row.cells| + PayloadSizes(row.cells) + SIZEOF_INT32 * |row.projector|
  }

  /** Sixteen bytes for a cell and four for an entry of the projector. */
  lemma SlotSizes(row: SourceRow)
    ensures DeepCopySize(row) == 16 * |row.cells| + 4 * |row.projector| + CellSizes(row.cells)
    ensures UsedSize(row) == 16 * |row.cells| + 4 * |row.projector| + PayloadSizes(row.cells)
  {
  }

  /** The size loop. */
  method GetDeepCopySize(row: SourceRow) returns (size: nat)
    ensures size == DeepCopySize(row)
  {
    size := SIZEOF_OBJ * |row.cells|;
    size := size + SIZEOF_INT32 * |row.projector|;
    for i := 0 to |row.cells|
      invariant size == SIZEOF_OBJ * |row.cells| + SIZEOF_INT32 * |row.projector| + CellSizes(row.cells[..i])
    {
      assert row.cells[..i + 1][..i] == row.cells[..i];
      size := size + CellSize(row.cells[i]);
    }
    assert row.cells[..|row.cells|] == row.cells;
  }

  /** Where the payload of cell i goes. */
  function PayloadAt(row: SourceRow, start: nat, i: nat): nat
    requires i <= |row.cells|
  {
    start + SIZEOF_OBJ * |row.cells| + PayloadSizes(row.cells[..i])
  }

  lemma PayloadAtStep(row: SourceRow, start: nat, i: nat)
    requires i < |row.cells|
    ensures PayloadAt(row, start, i + 1) == PayloadAt(row, start, i) + PayloadSize(row.cells[i])
  {
    assert row.cells[..i + 1][..i] == row.cells[..i];
  }

  /** Payload regions follow each other without overlap, after the cell array. */
  lemma {:induction false} RegionsDisjoint(row: SourceRow, start: nat, i: nat, j: nat)
    requires i < j <= |row.cells|
    ensures start + SIZEOF_OBJ * |row.cells| <= PayloadAt(row, start, i)
    ensures PayloadAt(row, start, i) + PayloadSize(row.cells[i]) <= PayloadAt(row, start, j)
    decreases j - i
  {
    PayloadAtStep(row, start, i);
    if i + 1 < j {
      RegionsDisjoint(row, start, i + 1, j);
    }
  }

  /** No cell is counted without being copied. */
  ghost predicate AllCopied(cells: seq<Obj>) {
    forall i :: 0 <= i < |cells| ==> !(CountedOnly(cells[i].meta.ty) && cells[i].lenWord > 0)
  }

  lemma {:induction false} PayloadsFitCells(cells: seq<Obj>)
    ensures PayloadSizes(cells) <= CellSizes(cells)
    ensures PayloadSizes(cells) == CellSizes(cells) <==> AllCopied(cells)
  {
    if cells != [] {
      var last := |cells| - 1;
      PayloadsFitCells(cells[..last]);
      CellSizeCoversPayload(cells[last]);
      assert AllCopied(cells) <==> AllCopied(cells[..last]) && AllCopied([cells[last]]) by {
        assert cells == cells[..last] + [cells[last]];
        assert [cells[last]][0] == cells[last];
      }
    }
  }

  /** A copy never uses more than the declared size, and uses all of it exactly when no cell is
      counted without being copied. */
  lemma UsedSizeIff(row: SourceRow)
    ensures UsedSize(row) <= DeepCopySize(row)
    ensures UsedSize(row) == DeepCopySize(row) <==> AllCopied(row.cells)
  {
    PayloadsFitCells(row.cells);
  }

  /** The first i cells have been copied: each new cell points to its own region, which holds the
      payload of the source cell. */
  ghost predicate Copied(src: SourceRow, start: nat, i: nat, cells: seq<Obj>, buf: seq<byte>) {
    && i <= |src.cells| == |cells|
    && (forall k :: 0 <= k < i ==> cells[k] == CopiedCell(src.cells[k], PayloadAt(src, start, k)))
    && (forall k :: 0 <= k < i && CopiesPayload(src.cells[k].meta.ty) ==>
          src.cells[k].value.External? && Stands(buf, PayloadAt(src, start, k), src.cells[k].value.bytes))
  }

  lemma CopiedStep(src: SourceRow, start: nat, i: nat, cells: seq<Obj>, before: seq<byte>, now: seq<byte>)
    requires i < |src.cells| && Copied(src, start, i, cells, before)
    requires forall k :: 0 <= k < |src.cells| ==> SourceCell(src.cells[k])
    requires Untouched(before, now, PayloadAt(src, start, i), PayloadAt(src, start, i + 1))
    requires CopiesPayload(src.cells[i].meta.ty) ==>
               src.cells[i].value.External? && Stands(now, PayloadAt(src, start, i), src.cells[i].value.bytes)
    ensures Copied(src, start, i + 1, cells[i := CopiedCell(src.cells[i], PayloadAt(src, start, i))], now)
  {
    hide PayloadSize, CopiedCell, CopiesPayload, PayloadAt, Untouched, Stands;
    forall k | 0 <= k < i && CopiesPayload(src.cells[k].meta.ty)
      ensures Stands(now, PayloadAt(src, start, k), src.cells[k].value.bytes)
    {
      RegionsDisjoint(src, start, k, i);
      StandsKept(before, now, PayloadAt(src, start, i), PayloadAt(src, start, i + 1),
                 PayloadAt(src, start, k), src.cells[k].value.bytes);
    }
  }

  /** The cell dst of the copy says what src says: the same length word or number descriptor, type and
      scale; a payload that was moved reads back as it was, and a cell without one is the source's. */
  ghost predicate SameCell(src: Obj, dst: Obj, buf: seq<byte>) {
    && dst.lenWord == src.lenWord && dst.meta.ty == src.meta.ty && dst.meta.scale == src.meta.scale
    && if CopiesPayload(src.meta.ty)
       then src.value.External? && dst.value.InBuffer? && Stands(buf, dst.value.at, src.value.bytes)
       else dst == src
  }

  /** The types whose payload is moved, those that are paid for and stay, and the texts, by number. */
  lemma MovedTypes(t: ObjType)
    ensures CopiesPayload(t) <==> t in {15, 16, 22, 23, 24, 42, 45, 47, 48, 50}
    ensures CountedOnly(t) <==> t in {39, 43, 44, 46, 49}
    ensures IsText(t) <==> t in {27, 28, 29, 30}
    ensures HoldsPointer(t) <==> CopiesPayload(t) || CountedOnly(t) || IsText(t)
  {
  }

  lemma CopiedMeans(src: SourceRow, start: nat, cells: seq<Obj>, buf: seq<byte>)
    requires Copied(src, start, |src.cells|, cells, buf)
    ensures |cells| == |src.cells| && forall i :: 0 <= i < |cells| ==> SameCell(src.cells[i], cells[i], buf)
  {
    hide PayloadAt, Stands, CopiesPayload, CopiedMeta;
    forall i | 0 <= i < |cells| ensures SameCell(src.cells[i], cells[i], buf) {
      assert cells[i] == CopiedCell(src.cells[i], PayloadAt(src, start, i));
      CopiedMetaIff(src.cells[i].meta);
    }
  }

  class NewRow {
    var cells: seq<Obj>
    var cellsAt: nat
    var projector: seq<int>
    var projectorAt: nat

    constructor ()
      ensures cells == [] && projector == []
    {
      cells, cellsAt, projector, projectorAt := [], 0, [], 0;
    }

    /** deep_copy. Once the size check passes no cell can fail. */
    method DeepCopy(src: SourceRow, buf: array<byte>, len: nat, pos: nat) returns (ret: ObRet, pos': nat)
      requires forall i :: 0 <= i < |src.cells| ==> SourceCell(src.cells[i])
      requires len <= buf.Length
      modifies this, buf
      ensures ret == (if DeepCopySize(src) + pos > len then SizeOverflow else Success)
      ensures ret != Success ==> pos' == pos && buf[..] == old(buf[..]) && unchanged(this)
      ensures ret == Success ==>
                && cellsAt == pos && Copied(src, pos, |src.cells|, cells, buf[..])
                && |cells| == |src.cells|
                && (forall i :: 0 <= i < |cells| ==> SameCell(src.cells[i], cells[i], buf[..]))
                && pos' == pos + UsedSize(src) <= len
                && Untouched(old(buf[..]), buf[..], pos, pos')
                && (if |src.projector| > 0
                    then projector == src.projector && projectorAt == PayloadAt(src, pos, |src.cells|)
                    else projector == old(projector))
                && (projector == src.projector <==> |src.projector| > 0 || old(projector) == [])
    {
      hide PayloadSize, CellSize, CopiedCell, CopiesPayload, PayloadSizes, CellSizes, Copied, PayloadAt, SameCell;
      ret, pos' := Success, pos;
      var n := |src.cells|;
      var size := GetDeepCopySize(src);
      if size + pos > len {
        ret := SizeOverflow;
        return;
      }
      UsedSizeIff(src);
      cells := seq(n, _ => Obj(Meta(NULL_TYPE, Ignorable, CS_TYPE_BINARY, -1), 0, Inline(0)));
      cellsAt := pos';
      pos' := pos' + n * SIZEOF_OBJ;
      CopiedNone(src, pos, cells, buf[..]);
      ghost var was := buf[..];
      var i: nat := 0;
      while i < n && ret == Success
        invariant ret == Success && i <= n && |cells| == n && cellsAt == pos
        invariant pos <= pos' == PayloadAt(src, pos, i) <= len
        invariant Untouched(was, buf[..], pos, pos')
        invariant Copied(src, pos, i, cells, buf[..])
        invariant projector == old(projector)
      {
        ghost var before, at := buf[..], pos';
        PayloadAtStep(src, pos, i);
        PayloadAtBounded(src, pos, i + 1);
        var cell;
        ret, cell, pos' := DeepCopyCell(src.cells[i], buf, len, pos');
        CopiedStep(src, pos, i, cells, before, buf[..]);
        UntouchedStep(was, before, buf[..], pos, at, pos');
        cells := cells[i := cell];
        i := i + 1;
      }
      PayloadEnd(src, pos);
      CopiedMeans(src, pos, cells, buf[..]);
      if |src.projector| > 0 {
        projectorAt := pos';
        projector := src.projector;
        pos' := pos' + |src.projector| * SIZEOF_INT32;
      }
    }
  }

  lemma CopiedNone(src: SourceRow, start: nat, cells: seq<Obj>, buf: seq<byte>)
    requires |cells| == |src.cells|
    ensures Copied(src, start, 0, cells, buf)
    ensures PayloadAt(src, start, 0) == start + SIZEOF_OBJ * |src.cells|
  {
  }

  /** Every payload of the copy reads as the payload of the source. */
  lemma CopiedReads(src: SourceRow, start: nat, cells: seq<Obj>, buf: seq<byte>, i: nat)
    requires Copied(src, start, |src.cells|, cells, buf) && i < |src.cells|
    requires SourceCell(src.cells[i]) && CopiesPayload(src.cells[i].meta.ty)
    ensures cells[i].value.InBuffer? && cells[i].value.at + PayloadSize(cells[i]) <= |buf|
    ensures PayloadOf(cells[i], buf) == src.cells[i].value.bytes
  {
    assert cells[i] == CopiedCell(src.cells[i], PayloadAt(src, start, i));
    CopiedMetaIff(src.cells[i].meta);
  }

  /** A cell points outside the buffer exactly when its type holds a pointer. */
  predicate WellTyped(o: Obj) {
    o.value.External? <==> HoldsPointer(o.meta.ty)
  }

  /** The copy stands on its own, no cell of it pointing to memory of the source, exactly when no cell
      is a text, or of a type that is counted but not copied. */
  lemma CopyIsSelfContainedIff(src: SourceRow, start: nat, cells: seq<Obj>, buf: seq<byte>)
    requires Copied(src, start, |src.cells|, cells, buf)
    requires forall i :: 0 <= i < |src.cells| ==> WellTyped(src.cells[i])
    ensures (forall i :: 0 <= i < |cells| ==> !cells[i].value.External?)
       <==> (forall i :: 0 <= i < |src.cells| ==> !CountedOnly(src.cells[i].meta.ty) && !IsText(src.cells[i].meta.ty))
  {
    hide PayloadAt;
    forall i | 0 <= i < |cells|
      ensures cells[i].value.External? <==> CountedOnly(src.cells[i].meta.ty) || IsText(src.cells[i].meta.ty)
    {
      assert WellTyped(src.cells[i]);
      assert cells[i] == CopiedCell(src.cells[i], PayloadAt(src, start, i));
    }
  }

  /** A national string is paid for and stays where it was; a text is not even paid for. */
  lemma SharedPayloads(at: nat)
    ensures var national := Obj(Meta(NVARCHAR2, Implicit, 46, -1), 2, External([97, 98]));
            && WellTyped(national) && CellSize(national) == 2
            && PayloadSize(national) == 0 && CopiedCell(national, at) == national
    ensures var text := Obj(Meta(LONG_TEXT, Implicit, 46, -1), 2, External([97, 98]));
            && WellTyped(text) && CellSize(text) == 0 && CopiedCell(text, at) == text
  {
  }

  /** Copying a JSON cell replaces its collation by the binary one. */
  lemma JsonCollationLost()
    ensures var m := Meta(JSON, Implicit, 46, -1); CopiedMeta(m) == m.(csType := CS_TYPE_BINARY)
  {
  }

  lemma PayloadEnd(row: SourceRow, start: nat)
    ensures PayloadAt(row, start, |row.cells|) + SIZEOF_INT32 * |row.projector| == start + UsedSize(row)
  {
    assert row.cells[..|row.cells|] == row.cells;
  }

  lemma PayloadAtBounded(row: SourceRow, start: nat, i: nat)
    requires i <= |row.cells|
    ensures PayloadAt(row, start, i) <= start + UsedSize(row)
  {
    PayloadEnd(row, start);
    if i < |row.cells| {
      RegionsDisjoint(row, start, i, |row.cells|);
    }
  }
}
