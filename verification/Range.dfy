/** ObNewRange: endpoint comparison of rowkey ranges, and what it says about the keys inside. */
module Range2 {
  import opened Arithmetic
  import opened ObjCompare
  import opened Rowkey

  datatype NewRange = NewRange(tableId: int, startKey: Rowkey, endKey: Rowkey,
                               inclusiveStart: bool, inclusiveEnd: bool, info: RowkeyInfo)
  {
    predicate Ok() {
      startKey.Ok() && endKey.Ok()
    }
  }

  /** fetch_rowkey_info on the infos of two ranges: the first that is there decides. */
  function Fetched(i: RowkeyInfo, j: RowkeyInfo): RowkeyInfo {
    if i != [] then i else j
  }

  function FetchRowkeyInfo(l: NewRange, r: NewRange): RowkeyInfo {
    Fetched(l.info, r.info)
  }

  function CompareWithStartkey2(a: NewRange, r: NewRange): int
    requires a.Ok() && r.Ok()
  {
    if a.startKey.IsMinRow() then (if !r.startKey.IsMinRow() then -1 else 0)
    else if r.startKey.IsMinRow() then 1
    else
      var cmp := CompareRowkey(a.startKey, r.startKey, FetchRowkeyInfo(a, r));
      if cmp != 0 then cmp
      else if a.inclusiveStart && !r.inclusiveStart then -1
      else if !a.inclusiveStart && r.inclusiveStart then 1
      else 0
  }

  function CompareWithEndkey2(a: NewRange, r: NewRange): int
    requires a.Ok() && r.Ok()
  {
    if a.endKey.IsMaxRow() then (if !r.endKey.IsMaxRow() then 1 else 0)
    else if r.endKey.IsMaxRow() then -1
    else
      var cmp := CompareRowkey(a.endKey, r.endKey, FetchRowkeyInfo(a, r));
      if cmp != 0 then cmp
      else if a.inclusiveEnd && !r.inclusiveEnd then 1
      else if !a.inclusiveEnd && r.inclusiveEnd then -1
      else 0
  }

  predicate Equal2(a: NewRange, r: NewRange)
    requires a.Ok() && r.Ok()
  {
    a.tableId == r.tableId && CompareWithStartkey2(a, r) == 0 && CompareWithEndkey2(a, r) == 0
  }

  /** empty(): compared without any rowkey info, even when the range carries one. */
  predicate Empty(a: NewRange)
    requires a.Ok()
  {
    EmptyUnder(a, [])
  }

  predicate EmptyUnder(a: NewRange, info: RowkeyInfo)
    requires a.Ok()
  {
    if a.startKey.IsMinRow() || a.endKey.IsMaxRow() then false
    else
      var cmp := CompareRowkey(a.endKey, a.startKey, info);
      cmp < 0 || (cmp == 0 && !(a.inclusiveEnd && a.inclusiveStart))
  }

  // ------------------------------------------------------------------ the keys of a range

  /** An all-MIN start and an all-MAX end are no bound at all. */
  predicate AboveStart(k: Rowkey, a: NewRange, info: RowkeyInfo)
    requires k.Ok() && a.Ok()
  {
    a.startKey.IsMinRow() ||
    var c := ContentCompare(a.startKey, k, info);
    c < 0 || (c == 0 && a.inclusiveStart)
  }

  predicate BelowEnd(k: Rowkey, a: NewRange, info: RowkeyInfo)
    requires k.Ok() && a.Ok()
  {
    a.endKey.IsMaxRow() ||
    var c := ContentCompare(k, a.endKey, info);
    c < 0 || (c == 0 && a.inclusiveEnd)
  }

  predicate Contains(a: NewRange, k: Rowkey, info: RowkeyInfo)
    requires k.Ok() && a.Ok()
  {
    AboveStart(k, a, info) && BelowEnd(k, a, info)
  }

  // ------------------------------------------------------------------ laws

  /** If two keys share a cell array, one holds the first cells of the other, and comparing their lengths
      orders them like their contents. */
  predicate Faithful(l: Rowkey, r: Rowkey) {
    l.ptr == r.ptr ==> SharedArray(l, r) && ShortcutHolds(l, r)
  }

  predicate ComparableRange(a: NewRange) {
    AllComparable(a.startKey.cells) && AllComparable(a.endKey.cells)
  }

  predicate FaithfulRanges(a: NewRange, b: NewRange) {
    && ComparableRange(a) && ComparableRange(b)
    && Faithful(a.startKey, b.startKey) && Faithful(a.endKey, b.endKey)
  }

  /** The endpoints of the two ranges also compare inside int512. */
  predicate ExactRanges(a: NewRange, b: NewRange) {
    && FaithfulRanges(a, b)
    && ExactCells(a.startKey.cells, b.startKey.cells) && ExactCells(a.endKey.cells, b.endKey.cells)
  }

  /** A key that compares inside int512 with both endpoints. */
  predicate ExactKey(k: Rowkey, a: NewRange) {
    ExactCells(k.cells, a.startKey.cells) && ExactCells(k.cells, a.endKey.cells)
  }

  lemma FaithfulCompare(l: Rowkey, r: Rowkey, info: RowkeyInfo)
    requires AllComparable(l.cells) && AllComparable(r.cells) && Faithful(l, r)
    ensures Sign(CompareRowkey(l, r, info)) == Sign(ContentCompare(l, r, info))
  {
    if l.ptr == r.ptr {
      ShortcutIff(l, r, info);
    }
  }

  /** Keys compare under the directions info whenever the fetched directions amount to the same. */
  lemma FetchedCompare(a: NewRange, b: NewRange, info: RowkeyInfo)
    requires FaithfulRanges(a, b) && SameDirections(FetchRowkeyInfo(a, b), info)
    ensures Sign(CompareRowkey(a.startKey, b.startKey, FetchRowkeyInfo(a, b)))
            == Sign(ContentCompare(a.startKey, b.startKey, info))
    ensures Sign(CompareRowkey(a.endKey, b.endKey, FetchRowkeyInfo(a, b)))
            == Sign(ContentCompare(a.endKey, b.endKey, info))
  {
    hide ContentCompare, CompareRowkey, SameDirections;
    var fetched := FetchRowkeyInfo(a, b);
    FaithfulCompare(a.startKey, b.startKey, fetched);
    FaithfulCompare(a.endKey, b.endKey, fetched);
    SameDirectionsCompare(a.startKey, b.startKey, fetched, info);
    SameDirectionsCompare(a.endKey, b.endKey, fetched, info);
  }

  /** Comparing two keys the other way around negates the result, over one cell array or two. */
  lemma CompareRowkeySwap(l: Rowkey, r: Rowkey, x: RowkeyInfo, y: RowkeyInfo)
    requires AllComparable(l.cells) && AllComparable(r.cells) && SameDirections(x, y)
    ensures CompareRowkey(l, r, x) == -CompareRowkey(r, l, y)
  {
    hide ContentCompare, SameDirections;
    ContentAntisymmetric(l, r, y);
    SameDirectionsCompare(l, r, x, y);
  }

  /** Both endpoint comparators are antisymmetric between ranges that fetch the same directions
      whichever of them asks: in particular when only one of the two carries any. */
  lemma EndpointAntisymmetric(a: NewRange, b: NewRange)
    requires ComparableRange(a) && ComparableRange(b)
    requires SameDirections(FetchRowkeyInfo(a, b), FetchRowkeyInfo(b, a))
    ensures CompareWithStartkey2(a, b) == -CompareWithStartkey2(b, a)
    ensures CompareWithEndkey2(a, b) == -CompareWithEndkey2(b, a)
  {
    hide CompareRowkey, SameDirections;
    CompareRowkeySwap(a.startKey, b.startKey, FetchRowkeyInfo(a, b), FetchRowkeyInfo(b, a));
    CompareRowkeySwap(a.endKey, b.endKey, FetchRowkeyInfo(a, b), FetchRowkeyInfo(b, a));
  }

  /** The three comparisons among a, b and c all follow the directions info. */
  ghost predicate Follow(a: NewRange, b: NewRange, c: NewRange, info: RowkeyInfo) {
    && SameDirections(FetchRowkeyInfo(a, b), info)
    && SameDirections(FetchRowkeyInfo(b, c), info)
    && SameDirections(FetchRowkeyInfo(a, c), info)
  }

  /** Both endpoint comparators are transitive among ranges that fetch the same directions pairwise: all
      of them carry these directions, or all but one do, or none carries any. */
  lemma EndpointTransitive(a: NewRange, b: NewRange, c: NewRange, info: RowkeyInfo)
    requires ExactRanges(a, b) && ExactRanges(b, c) && ExactRanges(a, c) && Follow(a, b, c, info)
    ensures CompareWithStartkey2(a, b) <= 0 && CompareWithStartkey2(b, c) <= 0 ==> CompareWithStartkey2(a, c) <= 0
    ensures CompareWithEndkey2(a, b) <= 0 && CompareWithEndkey2(b, c) <= 0 ==> CompareWithEndkey2(a, c) <= 0
  {
    hide ContentCompare, CompareRowkey, SameDirections, FetchRowkeyInfo, AllComparable, ExactCells;
    FetchedCompare(a, b, info);
    FetchedCompare(b, c, info);
    FetchedCompare(a, c, info);
    ContentTotalPreorder(a.startKey, b.startKey, c.startKey, info);
    ContentTotalPreorder(a.endKey, b.endKey, c.endKey, info);
  }

  // ------------------------------------------------------------------ mixed directions

  /** For ranges with these two infos, comparing the other way around negates the comparison of starts. */
  ghost predicate StartsAntisymmetric(i: RowkeyInfo, j: RowkeyInfo) {
    forall a: NewRange, b: NewRange | a.info == i && b.info == j && ComparableRange(a) && ComparableRange(b) ::
      CompareWithStartkey2(a, b) == -CompareWithStartkey2(b, a)
  }

  /** And of ends. */
  ghost predicate EndsAntisymmetric(i: RowkeyInfo, j: RowkeyInfo) {
    forall a: NewRange, b: NewRange | a.info == i && b.info == j && ComparableRange(a) && ComparableRange(b) ::
      CompareWithEndkey2(a, b) == -CompareWithEndkey2(b, a)
  }

  /** Ranges with these three infos never break transitivity at their starts. */
  ghost predicate StartsTransitive(i: RowkeyInfo, j: RowkeyInfo, k: RowkeyInfo) {
    forall a: NewRange, b: NewRange, c: NewRange |
      a.info == i && b.info == j && c.info == k && ExactRanges(a, b) && ExactRanges(b, c) && ExactRanges(a, c) ::
      CompareWithStartkey2(a, b) <= 0 && CompareWithStartkey2(b, c) <= 0 ==> CompareWithStartkey2(a, c) <= 0
  }

  /** Nor at their ends. */
  ghost predicate EndsTransitive(i: RowkeyInfo, j: RowkeyInfo, k: RowkeyInfo) {
    forall a: NewRange, b: NewRange, c: NewRange |
      a.info == i && b.info == j && c.info == k && ExactRanges(a, b) && ExactRanges(b, c) && ExactRanges(a, c) ::
      CompareWithEndkey2(a, b) <= 0 && CompareWithEndkey2(b, c) <= 0 ==> CompareWithEndkey2(a, c) <= 0
  }

  /** Zeros, and v in column n. */
  function KeyCells(n: nat, v: int64): (r: seq<Obj>)
    ensures |r| == n + 1 && AllOrdered(r)
    ensures r[n] == Int(v) && forall q :: 0 <= q < n ==> r[q] == Int(0)
  {
    seq(n, _ => Int(0)) + [Int(v)]
  }

  lemma OneCell(v: int64)
    ensures KeyCells(0, v) == [Int(v)]
  {
  }

  function PointRange(id: nat, cells: seq<Obj>, info: RowkeyInfo): NewRange {
    NewRange(1, Rowkey(id, cells), Rowkey(id, cells), true, true, info)
  }

  lemma {:induction false} KeyCellsCompare(l: seq<Obj>, r: seq<Obj>, n: nat, info: RowkeyInfo, i: nat)
    requires i <= n && |l| == |r| == n + 1 && AllWidthOk(l) && AllWidthOk(r)
    requires l[n].Int? && r[n].Int? && l[n].i != r[n].i
    requires forall q :: 0 <= q < n ==> l[q] == r[q] == Int(0)
    ensures Lexicographic(l, r, info, i) == CmpSame(l[n].i, r[n].i) * Direction(info, n)
    decreases n - i
  {
    hide Direction;
    if i < n {
      KeyCellsCompare(l, r, n, info, i + 1);
    }
  }

  /** Two point ranges that differ in column n are ordered by the fetched direction of that column. */
  lemma PointRangesCompare(n: nat, p: nat, u: int64, i: RowkeyInfo, q: nat, v: int64, j: RowkeyInfo)
    requires p != q && u != v
    ensures var a, b := PointRange(p, KeyCells(n, u), i), PointRange(q, KeyCells(n, v), j);
            && a.info == i && b.info == j && ExactRanges(a, b)
            && CompareWithStartkey2(a, b) == CmpSame(u, v) * Direction(Fetched(i, j), n)
            && CompareWithEndkey2(a, b) == CmpSame(u, v) * Direction(Fetched(i, j), n)
  {
    hide KeyCells, Direction, Lexicographic;
    var l, r := KeyCells(n, u), KeyCells(n, v);
    KeyCellsCompare(l, r, n, Fetched(i, j), 0);
    OrderedExactCells(l, r);
    assert !l[n].IsMin() && !l[n].IsMax() && !r[n].IsMin() && !r[n].IsMax();
  }

  /** For two infos either comparator is antisymmetric, over all ranges that carry them, exactly when
      both calls fetch the same directions. */
  lemma EndpointsAntisymmetricIff(i: RowkeyInfo, j: RowkeyInfo)
    ensures StartsAntisymmetric(i, j) <==> SameDirections(Fetched(i, j), Fetched(j, i))
    ensures EndsAntisymmetric(i, j) <==> SameDirections(Fetched(i, j), Fetched(j, i))
  {
    hide CompareWithStartkey2, CompareWithEndkey2, SameDirections, Fetched;
    if SameDirections(Fetched(i, j), Fetched(j, i)) {
      forall a: NewRange, b: NewRange | a.info == i && b.info == j && ComparableRange(a) && ComparableRange(b)
        ensures CompareWithStartkey2(a, b) == -CompareWithStartkey2(b, a)
        ensures CompareWithEndkey2(a, b) == -CompareWithEndkey2(b, a)
      {
        EndpointAntisymmetric(a, b);
      }
    } else {
      OppositeDirectionsBreak(i, j);
    }
  }

  lemma OppositeDirectionsBreak(i: RowkeyInfo, j: RowkeyInfo)
    requires !SameDirections(Fetched(i, j), Fetched(j, i))
    ensures !StartsAntisymmetric(i, j) && !EndsAntisymmetric(i, j)
  {
    hide CompareWithStartkey2, CompareWithEndkey2, PointRange, KeyCells, Fetched, Direction;
    var n: nat :| Direction(Fetched(i, j), n) != Direction(Fetched(j, i), n);
    PointRangesCompare(n, 1, 1, i, 2, 2, j);
    PointRangesCompare(n, 2, 2, j, 1, 1, i);
    var a, b := PointRange(1, KeyCells(n, 1), i), PointRange(2, KeyCells(n, 2), j);
    assert a.info == i && b.info == j && ComparableRange(a) && ComparableRange(b);
    assert CompareWithStartkey2(a, b) != -CompareWithStartkey2(b, a);
    assert CompareWithEndkey2(a, b) != -CompareWithEndkey2(b, a);
  }

  /** Starts 5 and 4, one range ascending and the other descending: each call says that its own range
      starts later. */
  lemma OppositeInfosBreakAntisymmetry()
    ensures var a, b := PointRange(1, [Int(5)], [1]), PointRange(2, [Int(4)], [-1]);
            && ComparableRange(a) && ComparableRange(b)
            && CompareWithStartkey2(a, b) > 0 && CompareWithStartkey2(b, a) > 0
  {
    hide CompareWithStartkey2, CompareWithEndkey2, KeyCells;
    OneCell(5);
    OneCell(4);
    PointRangesCompare(0, 1, 5, [1], 2, 4, [-1]);
    PointRangesCompare(0, 2, 4, [-1], 1, 5, [1]);
  }

  /** The three pairs of ranges with these infos are compared under the same directions. */
  ghost predicate ComparedAlike(i: RowkeyInfo, j: RowkeyInfo, k: RowkeyInfo) {
    SameDirections(Fetched(i, j), Fetched(i, k)) && SameDirections(Fetched(j, k), Fetched(i, k))
  }

  /** With three infos either comparator is transitive, for all ranges that carry them, exactly when the
      three pairs are compared under the same directions. */
  lemma EndpointsTransitiveIff(i: RowkeyInfo, j: RowkeyInfo, k: RowkeyInfo)
    ensures StartsTransitive(i, j, k) <==> ComparedAlike(i, j, k)
    ensures EndsTransitive(i, j, k) <==> ComparedAlike(i, j, k)
  {
    hide *;
    if ComparedAlike(i, j, k) {
      AlikeIsTransitive(i, j, k);
    } else {
      MixedDirectionsBreak(i, j, k);
    }
  }

  lemma AlikeIsTransitive(i: RowkeyInfo, j: RowkeyInfo, k: RowkeyInfo)
    requires ComparedAlike(i, j, k)
    ensures StartsTransitive(i, j, k) && EndsTransitive(i, j, k)
  {
    hide CompareWithStartkey2, CompareWithEndkey2, SameDirections, Faithful;
    var info := Fetched(i, k);
    SameDirectionsReflexive(info);
    forall a: NewRange, b: NewRange, c: NewRange |
      a.info == i && b.info == j && c.info == k && ExactRanges(a, b) && ExactRanges(b, c) && ExactRanges(a, c)
      ensures CompareWithStartkey2(a, b) <= 0 && CompareWithStartkey2(b, c) <= 0 ==> CompareWithStartkey2(a, c) <= 0
      ensures CompareWithEndkey2(a, b) <= 0 && CompareWithEndkey2(b, c) <= 0 ==> CompareWithEndkey2(a, c) <= 0
    {
      EndpointTransitive(a, b, c, info);
    }
  }

  lemma MixedDirectionsBreak(i: RowkeyInfo, j: RowkeyInfo, k: RowkeyInfo)
    requires !ComparedAlike(i, j, k)
    ensures !StartsTransitive(i, j, k) && !EndsTransitive(i, j, k)
  {
    var x, y, z := Fetched(i, j), Fetched(j, k), Fetched(i, k);
    hide CompareWithStartkey2, CompareWithEndkey2, PointRange, KeyCells, Fetched, BreakingValues;
    var n: nat :| Direction(x, n) != Direction(z, n) || Direction(y, n) != Direction(z, n);
    var (u, v, w) := BreakingValues(Direction(x, n), Direction(y, n), Direction(z, n));
    PointRangesCompare(n, 1, u, i, 2, v, j);
    PointRangesCompare(n, 2, v, j, 3, w, k);
    PointRangesCompare(n, 1, u, i, 3, w, k);
    var a, b, c := PointRange(1, KeyCells(n, u), i), PointRange(2, KeyCells(n, v), j), PointRange(3, KeyCells(n, w), k);
    assert a.info == i && b.info == j && c.info == k && ExactRanges(a, b) && ExactRanges(b, c) && ExactRanges(a, c);
    assert CompareWithStartkey2(a, b) < 0 && CompareWithStartkey2(b, c) < 0 && CompareWithStartkey2(a, c) > 0;
    assert CompareWithEndkey2(a, b) < 0 && CompareWithEndkey2(b, c) < 0 && CompareWithEndkey2(a, c) > 0;
  }

  /** Three values that compare upward, upward and downward under the directions x, y and z. */
  function BreakingValues(x: int, y: int, z: int): (r: (int64, int64, int64))
    requires (x == 1 || x == -1) && (y == 1 || y == -1) && (z == 1 || z == -1)
    requires x != z || y != z
    ensures r.0 != r.1 && r.1 != r.2 && r.0 != r.2
    ensures CmpSame(r.0, r.1) * x < 0 && CmpSame(r.1, r.2) * y < 0 && CmpSame(r.0, r.2) * z > 0
  {
    if x == y then (if x == 1 then (1, 2, 3) else (3, 2, 1))
    else if x == 1 then (if z == 1 then (2, 3, 1) else (1, 3, 2))
    else (if z == 1 then (3, 1, 2) else (2, 1, 3))
  }

  /** Starts 5, 4 and 3, of which only the middle range carries a descending column: 5 before 4 before 3
      before 5. */
  lemma OneInfoBreaksTransitivity()
    ensures var a, b, c := PointRange(1, [Int(5)], []), PointRange(2, [Int(4)], [-1]), PointRange(3, [Int(3)], []);
            && ExactRanges(a, b) && ExactRanges(b, c) && ExactRanges(a, c)
            && CompareWithStartkey2(a, b) < 0 && CompareWithStartkey2(b, c) < 0 && CompareWithStartkey2(c, a) < 0
  {
    hide CompareWithStartkey2, CompareWithEndkey2, KeyCells, ExactRanges;
    OneCell(5);
    OneCell(4);
    OneCell(3);
    PointRangesCompare(0, 1, 5, [], 2, 4, [-1]);
    PointRangesCompare(0, 2, 4, [-1], 3, 3, []);
    PointRangesCompare(0, 1, 5, [], 3, 3, []);
    PointRangesCompare(0, 3, 3, [], 1, 5, []);
  }

  // ------------------------------------------------------------------ containment

  lemma StartCovers(a: NewRange, b: NewRange, k: Rowkey)
    requires ExactRanges(a, b) && ExactKey(k, a) && ExactKey(k, b)
    requires CompareWithStartkey2(a, b) <= 0 && AboveStart(k, b, FetchRowkeyInfo(a, b))
    ensures AboveStart(k, a, FetchRowkeyInfo(a, b))
  {
    hide ContentCompare, CompareRowkey, Faithful;
    var info := FetchRowkeyInfo(a, b);
    FaithfulCompare(a.startKey, b.startKey, info);
    ExactCellsSymmetric(k.cells, a.startKey.cells);
    ExactCellsSymmetric(k.cells, b.startKey.cells);
    ContentTotalPreorder(a.startKey, b.startKey, k, info);
  }

  lemma EndCovers(a: NewRange, b: NewRange, k: Rowkey)
    requires ExactRanges(a, b) && ExactKey(k, a) && ExactKey(k, b)
    requires CompareWithEndkey2(a, b) >= 0 && BelowEnd(k, b, FetchRowkeyInfo(a, b))
    ensures BelowEnd(k, a, FetchRowkeyInfo(a, b))
  {
    hide ContentCompare, CompareRowkey, Faithful;
    var info := FetchRowkeyInfo(a, b);
    FaithfulCompare(a.endKey, b.endKey, info);
    ExactCellsSymmetric(a.endKey.cells, b.endKey.cells);
    ContentAntisymmetric(a.endKey, b.endKey, info);
    ContentTotalPreorder(k, b.endKey, a.endKey, info);
  }

  /** A range that starts no later and ends no earlier contains every key of the other, in the order of
      the directions the two were compared under, whichever of them carries any. */
  lemma EndpointsImplyContainment(a: NewRange, b: NewRange, k: Rowkey)
    requires ExactRanges(a, b) && ExactKey(k, a) && ExactKey(k, b)
    requires CompareWithStartkey2(a, b) <= 0 && CompareWithEndkey2(a, b) >= 0
    requires Contains(b, k, FetchRowkeyInfo(a, b))
    ensures Contains(a, k, FetchRowkeyInfo(a, b))
  {
    StartCovers(a, b, k);
    EndCovers(a, b, k);
  }

  // ------------------------------------------------------------------ equality

  /** Both unbounded, or keys that compare equal with the same inclusiveness. */
  predicate SameStart(a: NewRange, b: NewRange, info: RowkeyInfo)
    requires a.Ok() && b.Ok()
  {
    if a.startKey.IsMinRow() || b.startKey.IsMinRow() then a.startKey.IsMinRow() && b.startKey.IsMinRow()
    else ContentCompare(a.startKey, b.startKey, info) == 0 && a.inclusiveStart == b.inclusiveStart
  }

  predicate SameEnd(a: NewRange, b: NewRange, info: RowkeyInfo)
    requires a.Ok() && b.Ok()
  {
    if a.endKey.IsMaxRow() || b.endKey.IsMaxRow() then a.endKey.IsMaxRow() && b.endKey.IsMaxRow()
    else ContentCompare(a.endKey, b.endKey, info) == 0 && a.inclusiveEnd == b.inclusiveEnd
  }

  /** What equal2 means, whatever directions the two ranges carry and in the order of any others:
      endpoints of equal contents and the same bounds. No sort direction makes a difference vanish. */
  lemma Equal2Iff(a: NewRange, b: NewRange, info: RowkeyInfo)
    requires FaithfulRanges(a, b)
    ensures Equal2(a, b) <==> a.tableId == b.tableId && SameStart(a, b, info) && SameEnd(a, b, info)
  {
    hide ContentCompare, CompareRowkey;
    var fetched := FetchRowkeyInfo(a, b);
    FaithfulCompare(a.startKey, b.startKey, fetched);
    FaithfulCompare(a.endKey, b.endKey, fetched);
    ZeroUnderAnyDirections(a.startKey, b.startKey, fetched, info);
    ZeroUnderAnyDirections(a.endKey, b.endKey, fetched, info);
  }

  /** equal2 is reflexive and symmetric, between ranges with any infos. */
  lemma Equal2Symmetric(a: NewRange, b: NewRange)
    requires ComparableRange(a) && ComparableRange(b)
    ensures Equal2(a, a)
    ensures Equal2(a, b) <==> Equal2(b, a)
  {
    hide CompareRowkey;
    DiffersBothWays(a.startKey, b.startKey, FetchRowkeyInfo(a, b), FetchRowkeyInfo(b, a));
    DiffersBothWays(a.endKey, b.endKey, FetchRowkeyInfo(a, b), FetchRowkeyInfo(b, a));
    DiffersBothWays(a.startKey, a.startKey, a.info, a.info);
    DiffersBothWays(a.endKey, a.endKey, a.info, a.info);
  }

  lemma DiffersBothWays(l: Rowkey, r: Rowkey, x: RowkeyInfo, y: RowkeyInfo)
    requires AllComparable(l.cells) && AllComparable(r.cells)
    ensures CompareRowkey(l, r, x) == 0 <==> CompareRowkey(r, l, y) == 0
    ensures CompareRowkey(l, l, x) == 0
  {
    SameDirectionsReflexive(x);
    CompareRowkeySwap(l, r, x, x);
    ZeroUnderAnyDirections(r, l, x, y);
  }

  /** equal2 is transitive, among ranges with any three infos. */
  lemma Equal2Transitive(a: NewRange, b: NewRange, c: NewRange)
    requires ExactRanges(a, b) && ExactRanges(b, c) && ExactRanges(a, c)
    requires Equal2(a, b) && Equal2(b, c)
    ensures Equal2(a, c)
  {
    hide ContentCompare, Equal2, Faithful;
    Equal2Iff(a, b, []);
    Equal2Iff(b, c, []);
    Equal2Iff(a, c, []);
    ContentTotalPreorder(a.startKey, b.startKey, c.startKey, []);
    ContentTotalPreorder(a.endKey, b.endKey, c.endKey, []);
  }

  /** Equal ranges, with any infos, hold the same keys in the order of any directions. */
  lemma Equal2SameKeys(a: NewRange, b: NewRange, k: Rowkey, info: RowkeyInfo)
    requires ExactRanges(a, b) && ExactKey(k, a) && ExactKey(k, b) && Equal2(a, b)
    ensures Contains(a, k, info) <==> Contains(b, k, info)
  {
    hide ContentCompare, Equal2, Faithful;
    Equal2Iff(a, b, info);
    EqualKeysCompareAlike(a.startKey, b.startKey, k, info);
    EqualKeysCompareAlike(a.endKey, b.endKey, k, info);
  }

  /** Equal keys compare alike with every third one, from either side. */
  lemma EqualKeysCompareAlike(l: Rowkey, r: Rowkey, k: Rowkey, info: RowkeyInfo)
    requires ExactCells(l.cells, r.cells) && ExactCells(k.cells, l.cells) && ExactCells(k.cells, r.cells)
    ensures ContentCompare(l, r, info) == 0 ==>
              && Sign(ContentCompare(l, k, info)) == Sign(ContentCompare(r, k, info))
              && Sign(ContentCompare(k, l, info)) == Sign(ContentCompare(k, r, info))
  {
    hide ContentCompare, ExactCells;
    ExactCellsSymmetric(l.cells, r.cells);
    ExactCellsSymmetric(k.cells, l.cells);
    ExactCellsSymmetric(k.cells, r.cells);
    ContentTotalPreorder(l, r, k, info);
    ContentTotalPreorder(r, l, k, info);
    ContentTotalPreorder(k, l, r, info);
    ContentTotalPreorder(k, r, l, info);
  }

  // ------------------------------------------------------------------ emptiness

  /** The two endpoints compare inside int512 with each other. */
  predicate ExactBounds(a: NewRange) {
    Faithful(a.endKey, a.startKey) && ExactCells(a.endKey.cells, a.startKey.cells)
  }

  /** Emptiness judged in the order of the keys is never wrong about a range that has a key, and for a
      range bounded on both sides with an inclusive bound it is exactly the absence of keys. */
  lemma EmptyMeansNoKeys(a: NewRange, k: Rowkey, info: RowkeyInfo)
    requires ExactBounds(a) && ExactKey(k, a) && EmptyUnder(a, info)
    ensures !Contains(a, k, info)
  {
    hide ContentCompare, CompareRowkey;
    FaithfulCompare(a.endKey, a.startKey, info);
    ExactCellsSymmetric(a.endKey.cells, a.startKey.cells);
    ExactCellsSymmetric(k.cells, a.startKey.cells);
    ExactCellsSymmetric(k.cells, a.endKey.cells);
    ContentTotalPreorder(a.startKey, k, a.endKey, info);
    ContentTotalPreorder(a.endKey, a.startKey, k, info);
  }

  lemma NonEmptyHasKey(a: NewRange, info: RowkeyInfo) returns (k: Rowkey)
    requires ComparableRange(a) && Faithful(a.endKey, a.startKey) && !EmptyUnder(a, info)
    requires a.inclusiveStart || a.inclusiveEnd
    requires !a.startKey.IsMinRow() && !a.endKey.IsMaxRow()
    ensures k.Ok() && Contains(a, k, info)
  {
    hide ContentCompare, CompareRowkey;
    FaithfulCompare(a.endKey, a.startKey, info);
    ContentAntisymmetric(a.startKey, a.endKey, info);
    ContentAntisymmetric(a.endKey, a.startKey, info);
    k := if a.inclusiveStart then a.startKey else a.endKey;
  }

  /** Two bounds that compare equal enclose a key exactly when both are inclusive, and bounds in the wrong
      order none. */
  lemma EmptyOfEnds(a: NewRange, info: RowkeyInfo)
    requires ComparableRange(a) && Faithful(a.startKey, a.endKey)
    requires !a.startKey.IsMinRow() && !a.endKey.IsMaxRow()
    ensures ContentCompare(a.startKey, a.endKey, info) == 0 ==>
              (EmptyUnder(a, info) <==> !(a.inclusiveStart && a.inclusiveEnd))
    ensures ContentCompare(a.startKey, a.endKey, info) < 0 ==> !EmptyUnder(a, info)
    ensures ContentCompare(a.startKey, a.endKey, info) > 0 ==> EmptyUnder(a, info)
  {
    hide ContentCompare, CompareRowkey;
    FaithfulCompare(a.endKey, a.startKey, info);
    ContentAntisymmetric(a.startKey, a.endKey, info);
  }

  /** empty() agrees with the order of the keys exactly when the range is open on an unbounded side or
      no descending column decides between its two ends. */
  lemma EmptyIff(a: NewRange, info: RowkeyInfo)
    requires a.Ok()
    ensures (Empty(a) <==> EmptyUnder(a, info))
            <==> a.startKey.IsMinRow() || a.endKey.IsMaxRow() || DecidedAscending(a.endKey, a.startKey, info)
  {
    hide CompareRowkey, DecidedAscending;
    DirectionIff(a.endKey, a.startKey, info);
  }

  /** From 5 down to 3 on a descending column: called empty, though it contains 4. */
  lemma DescendingRangeCalledEmpty()
    ensures var a := NewRange(1, Rowkey(1, [Int(5)]), Rowkey(2, [Int(3)]), true, true, [-1]);
            var k := Rowkey(3, [Int(4)]);
            a.Ok() && k.Ok() && Empty(a) && Contains(a, k, a.info)
  {
    var five, four, three := Rowkey(1, [Int(5)]), Rowkey(3, [Int(4)]), Rowkey(2, [Int(3)]);
    assert !five.cells[0].IsMin() && !five.cells[0].IsMax();
    assert !four.cells[0].IsMin() && !four.cells[0].IsMax();
    assert !three.cells[0].IsMin() && !three.cells[0].IsMax();
    assert Level(five) == Level(four) == Level(three) == 0;
  }
}
