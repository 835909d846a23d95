/** ObRowDesc: the columns of a row in order, with a hash index from column to position. */
module RowDesc {
  import opened Buffers
  import opened Errors
  import opened IndexHashSet
  import opened ObjCast
  import opened ObjCompare
  import opened TwosComplement
  import opened Vi64

  /** OB_ROW_MAX_COLUMNS_COUNT: 512 user columns and twice 64 row key columns. */
  const MAX_COLUMNS_COUNT: nat := 640

  predicate Distinct(columns: seq<Desc>) {
    forall i, j :: 0 <= i < j < |columns| ==> columns[i] != columns[j]
  }

  /** What adding a column to a list of columns returns. */
  function AddResult(columns: seq<Desc>, d: Desc): ObRet {
    if |columns| >= MAX_COLUMNS_COUNT then BufNotEnough
    else if d in columns then EntryExist
    else Success
  }

  // ------------------------------------------------------------------ the serialized text

  function IntText(v: int64): seq<byte> {
    Encoding(ToUInt64(v))
  }

  function ColumnText(d: Desc): seq<byte> {
    IntText(ToInt64(d.tableId)) + IntText(ToInt64(d.columnId))
  }

  function ColumnsText(columns: seq<Desc>): seq<byte> {
    if columns == [] then [] else ColumnText(columns[0]) + ColumnsText(columns[1..])
  }

  function Text(columns: seq<Desc>, rowkeyCellCount: int64): seq<byte>
    requires |columns| <= MAX_COLUMNS_COUNT
  {
    IntText(|columns|) + (ColumnsText(columns) + IntText(rowkeyCellCount))
  }

  /** A list of columns read back, and how reading ended. */
  datatype Loading = Loading(ret: ObRet, columns: seq<Desc>, pos: nat)

  /** Reads n columns from position p on and adds them to columns. */
  function LoadColumns(s: seq<byte>, p: nat, n: int, columns: seq<Desc>): Loading
    decreases if n > 0 then n else 0
  {
    if n <= 0 then Loading(Success, columns, p)
    else
      match Decode(s, p)
      case None => Loading(DeserializeError, columns, p)
      case Some((tid, q)) =>
        match Decode(s, q)
        case None => Loading(DeserializeError, columns, q)
        case Some((cid, r)) =>
          var d := Desc(tid, cid);
          if AddResult(columns, d) != Success then Loading(AddResult(columns, d), columns, r)
          else LoadColumns(s, r, n - 1, columns + [d])
  }

  /** The result of deserializing into a descriptor that has some columns already. */
  datatype Loaded = Loaded(ret: ObRet, columns: seq<Desc>, rowkeyCellCount: int64, pos: nat)

  function Load(s: seq<byte>, p: nat, columns: seq<Desc>, rowkeyCellCount: int64): Loaded {
    match Decode(s, p)
    case None => Loaded(DeserializeError, columns, rowkeyCellCount, p)
    case Some((n, q)) =>
      var l := LoadColumns(s, q, ToInt64(n), columns);
      if l.ret != Success then Loaded(l.ret, l.columns, rowkeyCellCount, p)
      else
        match Decode(s, l.pos)
        case None => Loaded(DeserializeError, l.columns, rowkeyCellCount, p)
        case Some((k, r)) => Loaded(Success, l.columns, ToInt64(k), r)
  }

  // ------------------------------------------------------------------ round trip

  lemma {:induction false} LoadColumnsText(s: seq<byte>, p: nat, columns: seq<Desc>, i: nat)
    requires i <= |columns| <= MAX_COLUMNS_COUNT && Distinct(columns)
    requires Stands(s, p, ColumnsText(columns[i..]))
    ensures LoadColumns(s, p, |columns| - i, columns[..i])
            == Loading(Success, columns, p + |ColumnsText(columns[i..])|)
    decreases |columns| - i
  {
    hide Decode, Stands, Encoding;
    if i == |columns| {
      assert columns[..i] == columns;
    } else {
      var d := columns[i];
      var tid, cid := IntText(ToInt64(d.tableId)), IntText(ToInt64(d.columnId));
      assert columns[i..][1..] == columns[i + 1..];
      StandsParts(s, p, tid + cid, ColumnsText(columns[i + 1..]));
      StandsParts(s, p, tid, cid);
      DecodeEncoded(s, p, ToInt64(d.tableId));
      DecodeEncoded(s, p + |tid|, ToInt64(d.columnId));
      assert columns[..i] + [d] == columns[..i + 1];
      LoadColumnsText(s, p + |tid| + |cid|, columns, i + 1);
    }
  }

  /** Loading the text of a descriptor into an empty one gives its columns and row key count back, and
      ends right after the text, wherever the text stands. */
  lemma LoadText(s: seq<byte>, p: nat, columns: seq<Desc>, rowkeyCellCount: int64, before: int64)
    requires |columns| <= MAX_COLUMNS_COUNT && Distinct(columns)
    requires Stands(s, p, Text(columns, rowkeyCellCount))
    ensures Load(s, p, [], before)
            == Loaded(Success, columns, rowkeyCellCount, p + |Text(columns, rowkeyCellCount)|)
  {
    hide Decode, Stands, Encoding;
    var n, body, k := IntText(|columns|), ColumnsText(columns), IntText(rowkeyCellCount);
    StandsParts(s, p, n, body + k);
    StandsParts(s, p + |n|, body, k);
    DecodeEncoded(s, p, |columns|);
    assert columns[0..] == columns && columns[..0] == [];
    LoadColumnsText(s, p + |n|, columns, 0);
    DecodeEncoded(s, p + |n| + |body|, rowkeyCellCount);
  }

  /** One column of ids 1 and 300, and a row key count of 2. */
  lemma TextExample()
    ensures Text([Desc(1, 300)], 2) == [1, 1, 172, 2, 2]
  {
    assert Encoding(300) == [172] + Encoding(2);
    assert ColumnsText([Desc(1, 300)]) == ColumnText(Desc(1, 300)) + ColumnsText([]);
  }

  // ------------------------------------------------------------------ the descriptor

  /** Both ids of a column, one after the other. */
  method EncodeColumn(buf: array<byte>, bufLen: nat, pos: nat, d: Desc) returns (ret: ObRet, pos': nat)
    requires pos <= bufLen <= buf.Length
    modifies buf
    ensures ret == (if bufLen - pos >= |ColumnText(d)| then Success else SizeOverflow)
    ensures ret == Success ==>
              && pos' == pos + |ColumnText(d)|
              && Untouched(old(buf[..]), buf[..], pos, pos') && Stands(buf[..], pos, ColumnText(d))
    ensures ret != Success ==> Untouched(old(buf[..]), buf[..], pos, bufLen)
  {
    hide Encoding, Stands, Written;
    ghost var was := buf[..];
    ghost var tid, cid := IntText(ToInt64(d.tableId)), IntText(ToInt64(d.columnId));
    ret, pos' := EncodeVi64(buf, bufLen, pos, ToInt64(d.tableId));
    if ret == Success {
      ghost var before := buf[..];
      ret, pos' := EncodeVi64(buf, bufLen, pos', ToInt64(d.columnId));
      if ret == Success {
        UntouchedStep(was, before, buf[..], pos, pos + |tid|, pos');
        StandsKept(before, buf[..], pos + |tid|, pos', pos, tid);
        StandsParts(buf[..], pos, tid, cid);
      }
    }
  }

  class ObRowDesc {
    const cells: array<Desc>
    const hashMap: ArrayIndexHashSet
    var count: nat
    var rowkeyCellCount: int64

    ghost predicate Valid()
      reads this, cells, hashMap, hashMap.index
    {
      && cells.Length == MAX_COLUMNS_COUNT && hashMap.items == cells
      && hashMap.Valid() && count <= MAX_COLUMNS_COUNT
      && forall i :: i in hashMap.dist <==> 0 <= i < count
    }

    ghost function Columns(): seq<Desc>
      requires Valid()
      reads this, cells, hashMap, hashMap.index
    {
      cells[..count]
    }

    /** Untouched slots of the index read as empty; ReadyIff says after how many resets. */
    ghost predicate Ready()
      reads hashMap
    {
      Usable(hashMap.indexBase)
    }

    constructor ()
      ensures Valid() && Columns() == [] && rowkeyCellCount == 0 && hashMap.resets == 0
      ensures fresh(cells) && fresh(hashMap) && fresh(hashMap.index)
    {
      var array_ := new Desc[MAX_COLUMNS_COUNT](_ => Desc(0, 0));
      var set_ := new ArrayIndexHashSet(array_);
      cells := array_;
      hashMap := set_;
      count := 0;
      rowkeyCellCount := 0;
    }

    /** get_idx: the position of a column, -1 when it has none or an id is zero. past is what lies in
        memory after the column array. */
    method GetIdx(tableId: uint64, columnId: uint64, past: Desc) returns (idx: int)
      requires Valid()
      ensures idx == -1 || (0 <= idx < |Columns()| && Columns()[idx] == Desc(tableId, columnId))
      ensures && tableId != 0 && columnId != 0 && Desc(tableId, columnId) in Columns()
              && (Ready() || past != Desc(tableId, columnId))
              ==> idx != -1
      ensures tableId == 0 || columnId == 0 ==> idx == -1
    {
      idx := -1;
      HasColumn(this, Desc(tableId, columnId));
      if count > 0 && 0 != tableId && 0 != columnId {
        var found, index := hashMap.GetIndex(Desc(tableId, columnId), past);
        if found {
          if index < count {
            idx := index;
          }
        }
      }
    }

    /** get_tid_cid. */
    method GetTidCid(idx: int) returns (ret: ObRet, d: Desc)
      requires Valid()
      ensures ret == (if 0 <= idx < |Columns()| then Success else InvalidArgument)
      ensures ret == Success ==> d == Columns()[idx]
    {
      ret, d := Success, Desc(0, 0);
      if idx < 0 || idx >= count {
        ret := InvalidArgument;
      } else {
        d := cells[idx];
      }
    }

    /** add_column_desc. */
    method AddColumnDesc(tableId: uint64, columnId: uint64, past: Desc) returns (ret: ObRet)
      requires Valid()
      modifies `count, cells, hashMap.index, hashMap`dist
      ensures Valid()
      ensures |old(Columns())| >= 640 ==> ret == BufNotEnough
      ensures |old(Columns())| < 640 && Desc(tableId, columnId) in old(Columns()) ==> ret == EntryExist
      ensures Ready() && |old(Columns())| < 640 && Desc(tableId, columnId) !in old(Columns()) ==> ret == Success
      ensures !Ready() ==> UnreadyResult(old(Columns()), Desc(tableId, columnId), past, ret)
      ensures Columns() == if ret == Success then old(Columns()) + [Desc(tableId, columnId)] else old(Columns())
    {
      hide Holds, View, BaseAfter, Occurs, Usable;
      ret := Success;
      if count >= MAX_COLUMNS_COUNT {
        ret := BufNotEnough;
      } else {
        ghost var columns, before := Columns(), hashMap.items[..];
        cells[count] := Desc(tableId, columnId);
        HoldsFrame(View(hashMap.index[..], hashMap.indexBase), before, hashMap.items[..], hashMap.dist);
        assert cells[..count] == columns;
        HasColumn(this, Desc(tableId, columnId));
        ret := hashMap.SetIndex(count, past);
        if ret == Success {
          count := count + 1;
        }
      }
    }

    /** reset. An empty descriptor is left alone, row key count included. */
    method Reset()
      requires Valid()
      modifies this, hashMap, hashMap.index
      ensures Valid() && Columns() == []
      ensures old(Columns()) != [] ==> rowkeyCellCount == 0 && hashMap.resets == old(hashMap.resets) + 1
      ensures old(Columns()) == [] ==> rowkeyCellCount == old(rowkeyCellCount) && hashMap.resets == old(hashMap.resets)
    {
      if 0 != count {
        count := 0;
        rowkeyCellCount := 0;
        hashMap.Reset();
      }
    }

    /** assign. The index is emptied and every column is entered again; past(i) is what lies after the
        array when column i is entered. Only an index that is not ready can stop it, and then the
        columns are there and the index knows some of them. */
    method Assign(other: ObRowDesc, past: nat -> Desc) returns (ret: ObRet)
      requires Valid() && other.Valid()
      requires other == this || (other.cells != cells && other.hashMap != hashMap
                                 && other.hashMap.index != hashMap.index)
      modifies this, cells, hashMap, hashMap.index
      ensures count == old(other.count) && cells[..count] == old(other.Columns())
      ensures rowkeyCellCount == old(other.rowkeyCellCount)
      ensures hashMap.resets == old(hashMap.resets) + 1
      ensures Ready() ==> ret == Success
      ensures ret == Success ==> Valid()
      ensures ret != Success ==> ret == EntryExist || ret == HashFull
    {
      hide Holds, View, BaseAfter, NextBase, Occurs, Usable;
      ghost var columns := other.Columns();
      ColumnsDistinct(other);
      count := other.count;
      rowkeyCellCount := other.rowkeyCellCount;
      hashMap.Reset();
      ghost var table, before := hashMap.index[..], hashMap.items[..];
      forall i | 0 <= i < count {
        cells[i] := other.cells[i];
      }
      assert hashMap.index[..] == table && cells[..count] == columns;
      HoldsFrame(View(hashMap.index[..], hashMap.indexBase), before, hashMap.items[..], hashMap.dist);
      ret := EnterColumns(past);
    }

    /** The loop of assign. */
    method EnterColumns(past: nat -> Desc) returns (ret: ObRet)
      requires cells.Length == MAX_COLUMNS_COUNT && hashMap.items == cells && count <= MAX_COLUMNS_COUNT
      requires hashMap.Valid() && hashMap.dist == map[] && Distinct(cells[..count])
      modifies hashMap.index, hashMap`dist
      ensures hashMap.Valid() && (ret == Success ==> Valid())
      ensures Ready() ==> ret == Success
      ensures ret == Success || ret == EntryExist || ret == HashFull
    {
      hide Holds, View, BaseAfter, Occurs, Usable;
      ret := Success;
      var i: nat := 0;
      while i < count && ret == Success
        invariant i <= count && hashMap.Valid()
        invariant ret == Success ==> forall k :: k in hashMap.dist <==> 0 <= k < i
        invariant Ready() ==> ret == Success
        invariant ret == Success || ret == EntryExist || ret == HashFull
      {
        NotYetHeld(hashMap.items[..], hashMap.dist, cells[..count], i);
        ret := hashMap.SetIndex(i, past(i));
        i := i + 1;
      }
    }

    /** operator==, which does not look at the row key count. */
    method Equals(other: ObRowDesc) returns (equal: bool)
      requires Valid() && other.Valid()
      ensures equal <==> Columns() == other.Columns()
    {
      equal := count == other.count;
      var i: nat := 0;
      while equal && i < count
        invariant equal ==> i <= count == other.count
        invariant equal ==> forall k :: 0 <= k < i ==> cells[k] == other.cells[k]
        invariant !equal ==> Columns() != other.Columns()
        decreases equal, count - i
      {
        equal := cells[i] == other.cells[i];
        assert !equal ==> Columns()[i] != other.Columns()[i];
        i := i + 1;
      }
    }

    /** get_serialize_size. */
    method GetSerializeSize() returns (size: int)
      requires Valid()
      ensures size == |Text(Columns(), rowkeyCellCount)|
    {
      hide Encoding, EncodedLength;
      ghost var columns := Columns();
      size := EncodedLength(count);
      EncodedLengthIs(count);
      ghost var head: int := size;
      assert columns[0..] == columns;
      for i := 0 to count
        invariant size + |ColumnsText(columns[i..])| == head + |ColumnsText(columns)|
      {
        var ret, d := GetTidCid(i);
        assert columns[i..][1..] == columns[i + 1..];
        EncodedLengthIs(ToInt64(d.tableId));
        EncodedLengthIs(ToInt64(d.columnId));
        size := size + EncodedLength(ToInt64(d.tableId));
        size := size + EncodedLength(ToInt64(d.columnId));
      }
      size := size + EncodedLength(rowkeyCellCount);
      EncodedLengthIs(rowkeyCellCount);
    }

    /** serialize. It succeeds exactly when the text fits; otherwise the position is put back, though
        bytes after it may have been written. */
    method Serialize(buf: array<byte>, bufLen: nat, pos: nat) returns (ret: ObRet, pos': nat)
      requires Valid() && pos <= bufLen <= buf.Length
      modifies buf
      ensures ret == (if bufLen - pos >= |Text(Columns(), rowkeyCellCount)| then Success else SizeOverflow)
      ensures ret == Success ==>
                && pos' == pos + |Text(Columns(), rowkeyCellCount)|
                && Untouched(old(buf[..]), buf[..], pos, pos')
                && Stands(buf[..], pos, Text(Columns(), rowkeyCellCount))
      ensures ret != Success ==> pos' == pos && Untouched(old(buf[..]), buf[..], pos, bufLen)
    {
      hide Encoding, Stands, Untouched, Holds, View, Written, ColumnText;
      ghost var was, columns, full := buf[..], Columns(), Text(Columns(), rowkeyCellCount);
      ghost var done: seq<byte> := [];
      ghost var rest: seq<byte>;
      WrittenNothing(was, pos, bufLen);
      ret, pos' := EncodeVi64(buf, bufLen, pos, count);
      if ret == Success {
        WrittenMore(was, was, buf[..], pos, bufLen, [], IntText(count), pos');
        done := [] + IntText(count);
        assert done == IntText(count);
        rest := ColumnsText(columns) + IntText(rowkeyCellCount);
        assert columns[0..] == columns;
      } else {
        assert buf[..] == was && ret == SizeOverflow;
      }
      var i: nat := 0;
      while ret == Success && i < count
        invariant i <= count
        invariant cells[..count] == columns
        invariant ret == Success ==> rest == ColumnsText(columns[i..]) + IntText(rowkeyCellCount)
        invariant ret == Success ==> Written(was, buf[..], pos, bufLen, done, pos') && done + rest == full
        invariant ret == Success ==> pos' == pos + |done| <= bufLen
        invariant ret != Success ==>
                    ret == SizeOverflow && bufLen - pos < |full| && Untouched(was, buf[..], pos, bufLen)
        decreases ret == Success, count - i
      {
        var got, d := GetTidCid(i);
        assert columns[i..][1..] == columns[i + 1..];
        ghost var tail := ColumnsText(columns[i + 1..]) + IntText(rowkeyCellCount);
        assert done + rest == done + (ColumnText(d) + tail) == (done + ColumnText(d)) + tail;
        ghost var before := buf[..];
        var at;
        ret, at := EncodeColumn(buf, bufLen, pos', d);
        if ret != Success {
          WrittenTooFar(was, before, buf[..], pos, bufLen, done, pos', ColumnText(d), tail);
        } else {
          WrittenMore(was, before, buf[..], pos, bufLen, done, ColumnText(d), at);
          done, pos', rest := done + ColumnText(d), at, tail;
        }
        i := i + 1;
      }
      if ret == Success {
        assert columns[i..] == [] && rest == IntText(rowkeyCellCount) == IntText(rowkeyCellCount) + [];
        ghost var before := buf[..];
        var at := pos';
        ret, at := EncodeVi64(buf, bufLen, pos', rowkeyCellCount);
        if ret == Success {
          WrittenMore(was, before, buf[..], pos, bufLen, done, rest, at);
          WrittenIs(was, buf[..], pos, bufLen, full, at);
        } else {
          WrittenHere(was, buf[..], pos, bufLen, done, pos');
          WrittenTooFar(was, before, buf[..], pos, bufLen, done, pos', rest, []);
        }
        pos' := at;
      }
      if ret != Success {
        pos' := pos;
      }
    }

    /** deserialize. Columns read before a failure stay. past is what lies after the data, and pastCells
        what lies after the column array. */
    method Deserialize(buf: seq<byte>, dataLen: nat, pos: nat, past: byte, pastCells: nat -> Desc)
        returns (ret: ObRet, pos': nat)
      requires Valid() && dataLen <= |buf|
      modifies this, cells, hashMap.index, hashMap`dist
      ensures Valid()
      ensures Ready() ==> Loaded(ret, Columns(), rowkeyCellCount, pos')
                          == Load(buf[..dataLen], pos, old(Columns()), old(rowkeyCellCount))
      ensures old(Columns()) <= Columns()
      ensures ret != Success ==> pos' == pos && rowkeyCellCount == old(rowkeyCellCount)
    {
      hide Decode, Holds, View, BaseAfter, Usable, Occurs, LoadColumns;
      var columnCnt;
      ret, pos', columnCnt := DecodeVi64(buf, dataLen, pos, past);
      if ret == Success {
        ret, pos' := ReadColumns(buf, dataLen, pos', columnCnt, past, pastCells);
      }
      if ret == Success {
        var k;
        ret, pos', k := DecodeVi64(buf, dataLen, pos', past);
        if ret == Success {
          rowkeyCellCount := k;
        }
      }
      if ret != Success {
        pos' := pos;
      }
    }

    /** The loop of deserialize. */
    method ReadColumns(buf: seq<byte>, dataLen: nat, pos: nat, n: int, past: byte, pastCells: nat -> Desc)
        returns (ret: ObRet, pos': nat)
      requires Valid() && dataLen <= |buf|
      modifies `count, cells, hashMap.index, hashMap`dist
      ensures Valid()
      ensures Ready() ==> var l := LoadColumns(buf[..dataLen], pos, n, old(Columns()));
                          ret == l.ret && Columns() == l.columns && (ret == Success ==> pos' == l.pos)
      ensures old(Columns()) <= Columns()
    {
      hide Decode, Holds, View, BaseAfter, Usable, Occurs, UnreadyResult;
      ghost var data, start := buf[..dataLen], Columns();
      ret, pos' := Success, pos;
      ghost var l := LoadColumns(data, pos, n, start);
      var i: nat := 0;
      while ret == Success && i < n
        invariant Valid() && start <= Columns()
        invariant i == 0 || i <= n
        invariant Ready() && ret == Success ==> l == LoadColumns(data, pos', n - i, Columns())
        invariant Ready() && ret != Success ==> l.ret == ret && l.columns == Columns()
        decreases ret == Success, n - i
      {
        var tid, cid;
        ret, pos', tid := DecodeVi64(buf, dataLen, pos', past);
        if ret == Success {
          ret, pos', cid := DecodeVi64(buf, dataLen, pos', past);
          if ret == Success {
            ret := AddColumnDesc(ToUInt64(tid), ToUInt64(cid), pastCells(i));
          }
        }
        i := i + 1;
      }
    }
  }

  /** What adding a column may return while untouched slots of the index do not read as empty: a column
      that is there is still recognized, a new one may be refused. */
  predicate UnreadyResult(columns: seq<Desc>, d: Desc, past: Desc, ret: ObRet) {
    if |columns| >= MAX_COLUMNS_COUNT then ret == BufNotEnough
    else if d in columns then ret == EntryExist
    else ret == Success || ret == HashFull || (ret == EntryExist && d == past)
  }

  /** The text done has been written from pos to at, and nothing else. */
  ghost predicate Written(was: seq<byte>, now: seq<byte>, pos: nat, bufLen: nat, done: seq<byte>, at: nat) {
    at == pos + |done| <= bufLen <= |was| && Untouched(was, now, pos, at) && Stands(now, pos, done)
  }

  lemma WrittenNothing(was: seq<byte>, pos: nat, bufLen: nat)
    requires pos <= bufLen <= |was|
    ensures Written(was, was, pos, bufLen, [], pos) && Untouched(was, was, pos, bufLen)
  {
  }

  lemma WrittenMore(was: seq<byte>, before: seq<byte>, now: seq<byte>, pos: nat, bufLen: nat,
                    done: seq<byte>, more: seq<byte>, at: nat)
    requires Written(was, before, pos, bufLen, done, pos + |done|)
    requires at == pos + |done| + |more| <= bufLen
    requires Untouched(before, now, pos + |done|, at) && Stands(now, pos + |done|, more)
    ensures Written(was, now, pos, bufLen, done + more, at)
  {
    hide Untouched, Stands;
    UntouchedStep(was, before, now, pos, pos + |done|, at);
    StandsKept(before, now, pos + |done|, at, pos, done);
    StandsParts(now, pos, done, more);
  }

  lemma WrittenHere(was: seq<byte>, now: seq<byte>, pos: nat, bufLen: nat, done: seq<byte>, at: nat)
    requires Written(was, now, pos, bufLen, done, at)
    ensures Untouched(now, now, at, bufLen)
  {
  }

  lemma WrittenTooFar(was: seq<byte>, before: seq<byte>, now: seq<byte>, pos: nat, bufLen: nat,
                      done: seq<byte>, at: nat, more: seq<byte>, rest: seq<byte>)
    requires Written(was, before, pos, bufLen, done, at) && bufLen - at < |more|
    requires Untouched(before, now, at, bufLen)
    ensures bufLen - pos < |done + (more + rest)|
    ensures Untouched(was, now, pos, bufLen)
  {
    UntouchedStep(was, before, now, pos, at, bufLen);
  }

  lemma WrittenIs(was: seq<byte>, now: seq<byte>, pos: nat, bufLen: nat, full: seq<byte>, at: nat)
    requires Written(was, now, pos, bufLen, full, at)
    ensures at == pos + |full| <= bufLen && Untouched(was, now, pos, at) && Stands(now, pos, full)
  {
  }

  /** The index of a descriptor is ready after any number of its resets but one in every 5859437. */
  lemma ReadyIff(d: ObRowDesc)
    requires d.Valid()
    ensures d.Ready() <==> d.hashMap.resets % PERIOD != PERIOD - 1
  {
    hide BaseAfter, Holds;
    UntouchedReadsEmptyIff(d.hashMap.resets);
  }

  /** Once in every 5859437 resets the first probe for a column whose anchor slot is untouched reads a
      position past the column array. */
  lemma FirstProbeReadsOutside(index: seq<IndexType>, resets: nat, d: Desc)
    requires |index| == N && index[Anchor(d)] == INVALID_INDEX
    requires resets % PERIOD == PERIOD - 1
    ensures View(index, BaseAfter(resets))[Anchor(d)] == UNTOUCHED_POSITION > MAX_COLUMNS_COUNT
  {
    hide Anchor, BaseAfter;
    UntouchedReadsEmptyIff(resets);
  }

  /** The index has a column exactly when it is in the list. */
  lemma HasColumn(r: ObRowDesc, d: Desc)
    requires r.cells.Length == MAX_COLUMNS_COUNT && r.hashMap.items == r.cells && r.count <= MAX_COLUMNS_COUNT
    requires forall i :: i in r.hashMap.dist <==> 0 <= i < r.count
    ensures r.hashMap.Has(d) <==> d in r.cells[..r.count]
  {
    if d in r.cells[..r.count] {
      var i :| 0 <= i < r.count && r.cells[..r.count][i] == d;
      assert i in r.hashMap.dist && r.hashMap.items[..][i] == d;
    }
  }

  /** While columns are entered in order, the next one is not there yet. */
  lemma NotYetHeld(items: seq<Desc>, dist: map<int, nat>, columns: seq<Desc>, i: nat)
    requires Distinct(columns) && i < |columns| <= |items| && items[..|columns|] == columns
    requires forall k :: k in dist <==> 0 <= k < i
    ensures i !in dist && !Occurs(items, dist, items[i])
  {
    forall j | j in dist && 0 <= j < |items|
      ensures items[j] != items[i]
    {
      assert items[j] == items[..|columns|][j] && items[i] == items[..|columns|][i];
    }
  }

  /** The columns of a descriptor are distinct, by the invariant of its index. */
  lemma ColumnsDistinct(d: ObRowDesc)
    requires d.Valid()
    ensures Distinct(d.Columns()) && |d.Columns()| <= MAX_COLUMNS_COUNT
  {
  }
}
