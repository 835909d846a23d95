/** ObRowkey::compare: rows compared cell by cell, all-MIN rows first and all-MAX rows last. */
module Rowkey {
  import opened Arithmetic
  import opened ObjCompare
  import opened ObjOrder

  /** A row of cells; ptr identifies the cell array it points to. */
  datatype Rowkey = Rowkey(ptr: nat, cells: seq<Obj>)
  {
    predicate IsMinRow() {
      |cells| > 0 && forall i | 0 <= i < |cells| :: cells[i].IsMin()
    }

    predicate IsMaxRow() {
      |cells| > 0 && forall i | 0 <= i < |cells| :: cells[i].IsMax()
    }

    /** Decimals have a supported width. */
    predicate Ok() {
      AllWidthOk(cells)
    }
  }

  predicate AllWidthOk(cells: seq<Obj>) {
    forall i | 0 <= i < |cells| :: cells[i].WidthOk()
  }

  /** No extend values but MIN and MAX. */
  predicate AllComparable(cells: seq<Obj>) {
    forall i | 0 <= i < |cells| :: Comparable(cells[i])
  }

  /** Column by column the comparison of the two rows stays inside int512. */
  predicate ExactCells(l: seq<Obj>, r: seq<Obj>) {
    && AllComparable(l) && AllComparable(r)
    && forall i | 0 <= i < |l| && i < |r| :: Exact(l[i], r[i])
  }

  lemma ExactCellsSymmetric(l: seq<Obj>, r: seq<Obj>)
    ensures ExactCells(l, r) <==> ExactCells(r, l)
    ensures AllComparable(l) ==> ExactCells(l, l)
  {
    hide Exact, Comparable;
    if AllComparable(l) && AllComparable(r) {
      forall i | 0 <= i < |l| && i < |r| ensures Exact(l[i], r[i]) <==> Exact(r[i], l[i]) {
        ExactSymmetric(l[i], r[i]);
      }
    }
    if AllComparable(l) {
      forall i | 0 <= i < |l| ensures Exact(l[i], l[i]) {
        ExactSymmetric(l[i], l[i]);
      }
    }
  }

  predicate AllOrdered(cells: seq<Obj>) {
    forall i | 0 <= i < |cells| :: Ordered(cells[i])
  }

  /** Rows of decimals of at most 81 digits and a scale of 0 to 72 always do. */
  lemma OrderedExactCells(l: seq<Obj>, r: seq<Obj>)
    requires AllOrdered(l) && AllOrdered(r)
    ensures ExactCells(l, r)
  {
    hide Ordered, Exact, Comparable;
    forall i | 0 <= i < |l| ensures Comparable(l[i]) { OrderedComparable(l[i]); }
    forall i | 0 <= i < |r| ensures Comparable(r[i]) { OrderedComparable(r[i]); }
    forall i | 0 <= i < |l| && i < |r| ensures Exact(l[i], r[i]) { OrderedExact(l[i], r[i]); }
  }

  lemma OrderedComparable(a: Obj)
    requires Ordered(a)
    ensures Comparable(a)
  {
  }

  /** Sort directions of the columns, 1 or -1; an empty list stands for no rowkey info. */
  type RowkeyInfo = s: seq<int> | forall i | 0 <= i < |s| :: s[i] == 1 || s[i] == -1

  function Direction(info: RowkeyInfo, i: nat): int {
    if i < |info| then info[i] else 1
  }

  /** -1 for an all-MIN row, 1 for an all-MAX row, 0 otherwise. */
  function Level(k: Rowkey): int {
    if k.IsMinRow() then -1 else if k.IsMaxRow() then 1 else 0
  }

  /** Lexicographic comparison from column i on; a proper prefix is smaller. */
  function Lexicographic(l: seq<Obj>, r: seq<Obj>, info: RowkeyInfo, i: nat): int
    requires i <= |l| && i <= |r|
    requires AllWidthOk(l) && AllWidthOk(r)
    decreases |l| - i
  {
    if i == |l| || i == |r| then |l| - |r|
    else
      var c := CompareNullsafe(l[i], r[i]) * Direction(info, i);
      if c != 0 then c else Lexicographic(l, r, info, i + 1)
  }

  /** Comparison of the contents of two rows. */
  function ContentCompare(l: Rowkey, r: Rowkey, info: RowkeyInfo): int
    requires l.Ok() && r.Ok()
  {
    if Level(l) == 0 && Level(r) == 0 then Lexicographic(l.cells, r.cells, info, 0)
    else Level(l) - Level(r)
  }

  /** ObRowkey::compare; rows over the same cell array are told apart by length alone. */
  function CompareRowkey(l: Rowkey, r: Rowkey, info: RowkeyInfo): int
    requires l.Ok() && r.Ok()
  {
    if l.ptr == r.ptr then |l.cells| - |r.cells| else ContentCompare(l, r, info)
  }

  /** The loop of ObRowkey::compare. */
  method Compare(l: Rowkey, r: Rowkey, info: RowkeyInfo) returns (cmp: int)
    requires l.Ok() && r.Ok()
    ensures cmp == CompareRowkey(l, r, info)
  {
    cmp := 0;
    if l.ptr == r.ptr {
      cmp := |l.cells| - |r.cells|;
    } else {
      var lv := if l.IsMinRow() then -1 else if l.IsMaxRow() then 1 else 0;
      var rv := if r.IsMinRow() then -1 else if r.IsMaxRow() then 1 else 0;
      if lv == 0 && rv == 0 {
        var i := 0;
        var cmpCnt := Min(|l.cells|, |r.cells|);
        while i < cmpCnt && cmp == 0
          invariant 0 <= i <= cmpCnt
          invariant Lexicographic(l.cells, r.cells, info, 0) ==
                      if cmp != 0 then cmp else Lexicographic(l.cells, r.cells, info, i)
        {
          cmp := CompareNullsafe(l.cells[i], r.cells[i]) * Direction(info, i);
          i := i + 1;
        }
        if cmp == 0 {
          cmp := |l.cells| - |r.cells|;
        }
      } else {
        cmp := lv - rv;
      }
    }
  }

  // ------------------------------------------------------------------ total preorder of contents

  lemma {:induction false} LexicographicSwap(l: seq<Obj>, r: seq<Obj>, info: RowkeyInfo, i: nat)
    requires i <= |l| && i <= |r|
    requires AllComparable(l) && AllComparable(r)
    ensures Lexicographic(l, r, info, i) == -Lexicographic(r, l, info, i)
    decreases |l| - i
  {
    hide CompareNullsafe;
    if i < |l| && i < |r| {
      CompareAntisymmetric(l[i], r[i]);
      LexicographicSwap(l, r, info, i + 1);
    }
  }

  /** The preorder of three cells, also read in the other direction. */
  lemma CellsPreorder(a: Obj, b: Obj, c: Obj)
    requires Comparable(a) && Comparable(b) && Comparable(c)
    requires Exact(a, b) && Exact(b, c) && Exact(a, c)
    ensures forall s | s == 1 || s == -1 ::
              CompareNullsafe(a, b) * s <= 0 && CompareNullsafe(b, c) * s <= 0 ==>
                && CompareNullsafe(a, c) * s <= 0
                && (CompareNullsafe(a, c) == 0 <==> CompareNullsafe(a, b) == 0 && CompareNullsafe(b, c) == 0)
  {
    hide CompareNullsafe, Exact, Comparable;
    ExactSymmetric(a, b);
    ExactSymmetric(b, c);
    ExactSymmetric(a, c);
    CompareExactPreorder(a, b, c);
    CompareExactPreorder(c, b, a);
    CompareAntisymmetric(a, b);
    CompareAntisymmetric(b, c);
    CompareAntisymmetric(a, c);
  }

  lemma {:induction false} LexicographicTransitive(a: seq<Obj>, b: seq<Obj>, c: seq<Obj>, info: RowkeyInfo, i: nat)
    requires i <= |a| && i <= |b| && i <= |c|
    requires ExactCells(a, b) && ExactCells(b, c) && ExactCells(a, c)
    requires Lexicographic(a, b, info, i) <= 0 && Lexicographic(b, c, info, i) <= 0
    ensures Lexicographic(a, c, info, i) <= 0
    ensures Lexicographic(a, c, info, i) == 0
       <==> Lexicographic(a, b, info, i) == 0 && Lexicographic(b, c, info, i) == 0
    decreases |a| - i
  {
    hide CompareNullsafe, Exact;
    if i < |a| && i < |b| && i < |c| {
      CellsPreorder(a[i], b[i], c[i]);
      if CompareNullsafe(a[i], b[i]) == 0 && CompareNullsafe(b[i], c[i]) == 0 {
        LexicographicTransitive(a, b, c, info, i + 1);
      }
    }
  }

  lemma ContentAntisymmetric(l: Rowkey, r: Rowkey, info: RowkeyInfo)
    requires AllComparable(l.cells) && AllComparable(r.cells)
    ensures ContentCompare(l, l, info) == 0
    ensures ContentCompare(l, r, info) == -ContentCompare(r, l, info)
  {
    LexicographicSwap(l.cells, r.cells, info, 0);
    LexicographicSwap(l.cells, l.cells, info, 0);
  }

  /** For any three rows that compare column by column inside int512, whatever their scales, and any
      sort directions. */
  lemma ContentTotalPreorder(a: Rowkey, b: Rowkey, c: Rowkey, info: RowkeyInfo)
    requires ExactCells(a.cells, b.cells) && ExactCells(b.cells, c.cells) && ExactCells(a.cells, c.cells)
    ensures ContentCompare(a, a, info) == 0
    ensures ContentCompare(a, b, info) == -ContentCompare(b, a, info)
    ensures ContentCompare(a, b, info) <= 0 && ContentCompare(b, c, info) <= 0 ==>
              && ContentCompare(a, c, info) <= 0
              && (ContentCompare(a, c, info) == 0 <==>
                    ContentCompare(a, b, info) == 0 && ContentCompare(b, c, info) == 0)
  {
    ContentAntisymmetric(a, b, info);
    hide Lexicographic;
    if ContentCompare(a, b, info) <= 0 && ContentCompare(b, c, info) <= 0 {
      if Level(a) == 0 && Level(b) == 0 && Level(c) == 0 {
        LexicographicTransitive(a.cells, b.cells, c.cells, info, 0);
      }
    }
  }

  // ------------------------------------------------------------------ sort directions

  /** The first column from i on where the rows differ, or the length of the shorter row. */
  function FirstDifference(l: seq<Obj>, r: seq<Obj>, i: nat): (d: nat)
    requires i <= |l| && i <= |r| && AllWidthOk(l) && AllWidthOk(r)
    ensures i <= d <= |l| && d <= |r|
    decreases |l| - i
  {
    if i == |l| || i == |r| || CompareNullsafe(l[i], r[i]) != 0 then i else FirstDifference(l, r, i + 1)
  }

  /** The direction of that one column decides. */
  lemma {:induction false} LexicographicDecided(l: seq<Obj>, r: seq<Obj>, info: RowkeyInfo, i: nat)
    requires i <= |l| && i <= |r| && AllWidthOk(l) && AllWidthOk(r)
    ensures var d := FirstDifference(l, r, i);
            && (d < |l| && d < |r| ==>
                  && Lexicographic(l, r, info, i) == CompareNullsafe(l[d], r[d]) * Direction(info, d)
                  && CompareNullsafe(l[d], r[d]) != 0)
            && (d == |l| || d == |r| ==> Lexicographic(l, r, info, i) == |l| - |r|)
    decreases |l| - i
  {
    hide CompareNullsafe;
    if i < |l| && i < |r| && CompareNullsafe(l[i], r[i]) == 0 {
      LexicographicDecided(l, r, info, i + 1);
    }
  }

  /** No descending column decides between the two rows. */
  predicate DecidedAscending(l: Rowkey, r: Rowkey, info: RowkeyInfo)
    requires l.Ok() && r.Ok()
  {
    l.ptr == r.ptr || Level(l) != 0 || Level(r) != 0 ||
    var d := FirstDifference(l.cells, r.cells, 0);
    d == |l.cells| || d == |r.cells| || Direction(info, d) == 1
  }

  /** Sort directions can be left out exactly when an ascending column, or none, decides; otherwise
      they turn the order around. */
  lemma DirectionIff(l: Rowkey, r: Rowkey, info: RowkeyInfo)
    requires l.Ok() && r.Ok()
    ensures CompareRowkey(l, r, info) == CompareRowkey(l, r, []) <==> DecidedAscending(l, r, info)
    ensures !DecidedAscending(l, r, info) ==> CompareRowkey(l, r, info) == -CompareRowkey(l, r, []) != 0
  {
    hide CompareNullsafe;
    LexicographicDecided(l.cells, r.cells, info, 0);
    LexicographicDecided(l.cells, r.cells, [], 0);
  }

  /** Whether two rows differ does not depend on the directions. */
  lemma ZeroUnderAnyDirections(l: Rowkey, r: Rowkey, x: RowkeyInfo, y: RowkeyInfo)
    requires l.Ok() && r.Ok()
    ensures ContentCompare(l, r, x) == 0 <==> ContentCompare(l, r, y) == 0
    ensures CompareRowkey(l, r, x) == 0 <==> CompareRowkey(l, r, y) == 0
  {
    hide CompareNullsafe;
    LexicographicDecided(l.cells, r.cells, x, 0);
    LexicographicDecided(l.cells, r.cells, y, 0);
  }

  /** Two lists of directions that treat every column alike. */
  ghost predicate SameDirections(x: RowkeyInfo, y: RowkeyInfo) {
    forall n: nat :: Direction(x, n) == Direction(y, n)
  }

  lemma SameDirectionsReflexive(x: RowkeyInfo)
    ensures SameDirections(x, x)
  {
  }

  lemma {:induction false} LexicographicSameDirections(l: seq<Obj>, r: seq<Obj>, x: RowkeyInfo, y: RowkeyInfo, i: nat)
    requires i <= |l| && i <= |r| && AllWidthOk(l) && AllWidthOk(r) && SameDirections(x, y)
    ensures Lexicographic(l, r, x, i) == Lexicographic(l, r, y, i)
    decreases |l| - i
  {
    hide CompareNullsafe, Direction;
    if i < |l| && i < |r| {
      LexicographicSameDirections(l, r, x, y, i + 1);
    }
  }

  lemma SameDirectionsCompare(l: Rowkey, r: Rowkey, x: RowkeyInfo, y: RowkeyInfo)
    requires l.Ok() && r.Ok() && SameDirections(x, y)
    ensures ContentCompare(l, r, x) == ContentCompare(l, r, y)
  {
    hide SameDirections;
    LexicographicSameDirections(l.cells, r.cells, x, y, 0);
  }

  // ------------------------------------------------------------------ the order in terms of the cells

  /** Some cell is not MIN and some cell is not MAX. */
  ghost predicate Mixed(cells: seq<Obj>) {
    && (exists i :: 0 <= i < |cells| && cells[i] != Ext(MinValue))
    && (exists i :: 0 <= i < |cells| && cells[i] != Ext(MaxValue))
  }

  ghost predicate OnlyMin(cells: seq<Obj>) {
    cells != [] && forall i :: 0 <= i < |cells| ==> cells[i] == Ext(MinValue)
  }

  ghost predicate OnlyMax(cells: seq<Obj>) {
    cells != [] && forall i :: 0 <= i < |cells| ==> cells[i] == Ext(MaxValue)
  }

  /** Column d is the first in which the rows differ. */
  ghost predicate FirstDiffers(l: seq<Obj>, r: seq<Obj>, d: nat)
    requires AllWidthOk(l) && AllWidthOk(r)
  {
    && d < |l| && d < |r| && CompareNullsafe(l[d], r[d]) != 0
    && forall j :: 0 <= j < d ==> CompareNullsafe(l[j], r[j]) == 0
  }

  /** Between two mixed rows over different arrays the first column that differs decides, with its
      direction, and otherwise the lengths do. A single MIN or MAX cell does not lift a row out of the
      order of its columns. */
  lemma MixedRowsCompare(l: Rowkey, r: Rowkey, info: RowkeyInfo)
    requires l.Ok() && r.Ok() && l.ptr != r.ptr && Mixed(l.cells) && Mixed(r.cells)
    ensures forall d: nat :: FirstDiffers(l.cells, r.cells, d) ==>
              CompareRowkey(l, r, info)
              == (if d < |info| && info[d] == -1 then -CompareNullsafe(l.cells[d], r.cells[d])
                  else CompareNullsafe(l.cells[d], r.cells[d]))
    ensures (forall j :: 0 <= j < |l.cells| && j < |r.cells| ==> CompareNullsafe(l.cells[j], r.cells[j]) == 0) ==>
              CompareRowkey(l, r, info) == |l.cells| - |r.cells|
  {
    hide CompareNullsafe;
    LexicographicDecided(l.cells, r.cells, info, 0);
    FirstDifferenceIs(l.cells, r.cells, 0);
  }

  lemma {:induction false} FirstDifferenceIs(l: seq<Obj>, r: seq<Obj>, i: nat)
    requires i <= |l| && i <= |r| && AllWidthOk(l) && AllWidthOk(r)
    ensures var d := FirstDifference(l, r, i);
            && (forall j :: i <= j < d ==> CompareNullsafe(l[j], r[j]) == 0)
            && (d < |l| && d < |r| ==> CompareNullsafe(l[d], r[d]) != 0)
    decreases |l| - i
  {
    hide CompareNullsafe;
    if i < |l| && i < |r| && CompareNullsafe(l[i], r[i]) == 0 {
      FirstDifferenceIs(l, r, i + 1);
    }
  }

  /** A row of nothing but MIN lies below every row that is not one, the row without cells included,
      and a row of nothing but MAX above every row that is not one. */
  lemma ExtremeRowsCompare(l: Rowkey, r: Rowkey, info: RowkeyInfo)
    requires l.Ok() && r.Ok() && l.ptr != r.ptr
    ensures OnlyMin(l.cells) && !OnlyMin(r.cells) ==>
              CompareRowkey(l, r, info) < 0 < CompareRowkey(r, l, info)
    ensures OnlyMax(l.cells) && !OnlyMax(r.cells) ==>
              CompareRowkey(l, r, info) > 0 > CompareRowkey(r, l, info)
    ensures (OnlyMin(l.cells) && OnlyMin(r.cells)) || (OnlyMax(l.cells) && OnlyMax(r.cells)) ==>
              CompareRowkey(l, r, info) == 0
  {
    hide Lexicographic;
    LevelIs(l);
    LevelIs(r);
  }

  lemma LevelIs(k: Rowkey)
    ensures Level(k) == if OnlyMin(k.cells) then -1 else if OnlyMax(k.cells) then 1 else 0
    ensures OnlyMin(k.cells) ==> !OnlyMax(k.cells)
  {
    if OnlyMin(k.cells) {
      assert k.cells[0] == Ext(MinValue);
    }
    if !OnlyMin(k.cells) && k.cells != [] {
      var i :| 0 <= i < |k.cells| && k.cells[i] != Ext(MinValue);
      assert !k.cells[i].IsMin();
    }
    if !OnlyMax(k.cells) && k.cells != [] {
      var i :| 0 <= i < |k.cells| && k.cells[i] != Ext(MaxValue);
      assert !k.cells[i].IsMax();
    }
  }

  // ------------------------------------------------------------------ the shared-array shortcut

  /** Two rows over one array: one holds the first cells of the other. */
  predicate SharedArray(l: Rowkey, r: Rowkey) {
    l.ptr == r.ptr && (l.cells <= r.cells || r.cells <= l.cells)
  }

  lemma {:induction false} LexicographicPrefix(l: seq<Obj>, r: seq<Obj>, info: RowkeyInfo, i: nat)
    requires i <= |l| && (l <= r || r <= l) && i <= |r|
    requires AllComparable(l) && AllComparable(r)
    ensures Lexicographic(l, r, info, i) == |l| - |r|
    decreases |l| - i
  {
    hide CompareNullsafe;
    if i < |l| && i < |r| {
      assert l[i] == r[i];
      CompareAntisymmetric(l[i], l[i]);
      LexicographicPrefix(l, r, info, i + 1);
    }
  }

  /** With the shorter row on the left: the longer one must not rank below it. */
  predicate ShorterRanksLower(short: Rowkey, long: Rowkey) {
    Level(short) < Level(long) || Level(short) == Level(long) == 0
  }

  /** The lengths are equal or the shorter row also ranks lower. It does not for two all-MIN rows of
      different lengths, nor for an all-MAX row that begins a longer one. */
  predicate ShortcutHolds(l: Rowkey, r: Rowkey) {
    || |l.cells| == |r.cells|
    || (|l.cells| < |r.cells| && ShorterRanksLower(l, r))
    || (|r.cells| < |l.cells| && ShorterRanksLower(r, l))
  }

  /** Exactly then comparing lengths instead of contents gives the same order. */
  lemma ShortcutIff(l: Rowkey, r: Rowkey, info: RowkeyInfo)
    requires AllComparable(l.cells) && AllComparable(r.cells) && SharedArray(l, r)
    ensures Sign(CompareRowkey(l, r, info)) == Sign(ContentCompare(l, r, info)) <==> ShortcutHolds(l, r)
  {
    LexicographicPrefix(l.cells, r.cells, info, 0);
    if |l.cells| == |r.cells| {
      assert l.cells == r.cells;
    }
  }

  /** (MAX) is a prefix of (MAX, 5) and compares above it, unless the two share their array. */
  lemma MaxPrefixDisagrees()
    ensures var cells := [Ext(MaxValue), Int(5)];
            var (short, long) := (Rowkey(1, cells[..1]), Rowkey(1, cells));
            && AllComparable(short.cells) && AllComparable(long.cells) && SharedArray(short, long)
            && CompareRowkey(short, long, []) < 0 < ContentCompare(short, long, [])
  {
    var cells := [Ext(MaxValue), Int(5)];
    var (short, long) := (Rowkey(1, cells[..1]), Rowkey(1, cells));
    assert short.IsMaxRow() && !short.IsMinRow() by { assert short.cells[0] == Ext(MaxValue); }
    assert !long.IsMaxRow() by { assert !long.cells[1].IsMax(); }
    assert !long.IsMinRow() by { assert !long.cells[1].IsMin(); }
    assert short.cells <= long.cells;
  }
}
