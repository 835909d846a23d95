/** ObArrayIndexHashSet<Desc, 733>: an open-addressing hash set of positions in an array, emptied by
    moving a base instead of clearing the table. */
module IndexHashSet {
  import opened Arithmetic
  import opened Errors
  import opened ObjCompare

  /** A column: its table id and column id. */
  datatype Desc = Desc(tableId: uint64, columnId: uint64)

  /** ObRowDesc::Desc::hash. The shift drops the top sixteen bits of the table id and leaves the low
      sixteen bits free, so or is addition. */
  function Hash(d: Desc): uint64 {
    d.tableId % 0x1_0000_0000_0000 * 0x1_0000 + (d.columnId * 29 + 7) % 0x1_0000
  }

  /** The two parts of the hash do not overlap: the low 48 bits of the table id over 16 bits of the
      column id. */
  lemma HashParts(d: Desc)
    ensures Hash(d) / 0x1_0000 == d.tableId % 0x1_0000_0000_0000
    ensures Hash(d) % 0x1_0000 == (29 * d.columnId + 7) % 0x1_0000
  {
  }

  type IndexType = i: int | 0 <= i < 0x1_0000_0000

  const N: int := 733
  const INVALID_INDEX: IndexType := 0xFFFF_FFFF

  function Anchor(d: Desc): nat
    ensures Anchor(d) < N
  {
    Hash(d) % N
  }

  predicate HasMember(index: IndexType, base: nat) {
    base <= index < base + N
  }

  // ------------------------------------------------------------------ the table as a value

  /** Slot of probe step i from slot a. */
  function Cyc(a: nat, i: nat): nat
    requires a < N && i < N
    ensures Cyc(a, i) < N
  {
    if a + i < N then a + i else a + i - N
  }

  /** Array position in each slot, -1 in an empty one. */
  function View(index: seq<IndexType>, base: nat): (t: seq<int>)
    requires |index| == N
    ensures |t| == N
  {
    seq(N, p requires 0 <= p < N => if HasMember(index[p], base) then index[p] - base else -1)
  }

  function EmptySlots(t: seq<int>): nat {
    if t == [] then 0 else EmptySlots(t[..|t| - 1]) + (if t[|t| - 1] < 0 then 1 else 0)
  }

  lemma {:induction false} EmptySlotsUpdate(t: seq<int>, p: nat, v: int)
    requires p < |t| && t[p] < 0 <= v
    ensures EmptySlots(t[p := v]) == EmptySlots(t) - 1
  {
    var last := |t| - 1;
    if p == last {
      assert t[p := v][..last] == t[..last];
    } else {
      assert t[p := v][..last] == t[..last][p := v];
      EmptySlotsUpdate(t[..last], p, v);
    }
  }

  lemma {:induction false} FullMeansNoEmptySlots(t: seq<int>)
    requires forall p :: 0 <= p < |t| ==> t[p] >= 0
    ensures EmptySlots(t) == 0
  {
    if t != [] {
      FullMeansNoEmptySlots(t[..|t| - 1]);
    }
  }

  lemma {:induction false} AllEmpty(t: seq<int>)
    requires forall p :: 0 <= p < |t| ==> t[p] < 0
    ensures EmptySlots(t) == |t|
  {
    if t != [] {
      AllEmpty(t[..|t| - 1]);
    }
  }

  /** Slots that are neither empty nor point into the array do not occur. */
  ghost predicate NoneOutside(t: seq<int>, capacity: nat) {
    forall p :: 0 <= p < |t| ==> t[p] < capacity
  }

  /** The table holds exactly the positions in dist, whose items differ. Position i sits dist[i] steps
      from its anchor, and no slot on the way is empty. A slot may point past the array. */
  ghost predicate Holds(t: seq<int>, items: seq<Desc>, dist: map<int, nat>) {
    && |t| == N
    && (forall i :: i in dist ==> 0 <= i < |items| && Sits(t, items[i], i, dist[i]))
    && (forall i, j :: i in dist && j in dist && i != j ==> items[i] != items[j])
    && (forall p :: 0 <= p < N ==> -1 <= t[p])
    && (forall p :: 0 <= p < N && 0 <= t[p] < |items| ==>
          t[p] in dist && dist[t[p]] < N && p == Cyc(Anchor(items[t[p]]), dist[t[p]]))
    && (NoneOutside(t, |items|) ==> EmptySlots(t) == N - |dist|)
  }

  ghost predicate Sits(t: seq<int>, item: Desc, i: int, d: nat) {
    && |t| == N && d < N && t[Cyc(Anchor(item), d)] == i
    && forall k :: 0 <= k < d ==> t[Cyc(Anchor(item), k)] >= 0
  }

  /** One of the positions has this item. */
  ghost predicate Occurs(items: seq<Desc>, dist: map<int, nat>, item: Desc) {
    exists j :: j in dist && 0 <= j < |items| && items[j] == item
  }

  /** What is read at a position: past is what lies in memory after the array. */
  function Item(items: seq<Desc>, position: nat, past: Desc): Desc {
    if position < |items| then items[position] else past
  }

  /** The first i probes from the anchor of item met other items only. */
  ghost predicate Passed(t: seq<int>, items: seq<Desc>, item: Desc, i: nat, past: Desc) {
    && i <= N == |t|
    && forall k :: 0 <= k < i ==>
         t[Cyc(Anchor(item), k)] >= 0 && Item(items, t[Cyc(Anchor(item), k)], past) != item
  }

  /** A probe that ends at an empty slot, or has been everywhere, has not missed the item. */
  lemma PassedAbsent(t: seq<int>, items: seq<Desc>, dist: map<int, nat>, item: Desc, i: nat, past: Desc)
    requires Holds(t, items, dist) && Passed(t, items, item, i, past)
    requires i == N || t[Cyc(Anchor(item), i)] < 0
    ensures !Occurs(items, dist, item)
  {
    forall j | j in dist && 0 <= j < |items|
      ensures items[j] != item
    {
      assert Sits(t, items[j], j, dist[j]);
    }
  }

  /** A probe that has been everywhere has met no empty slot. */
  lemma PassedEverywhere(t: seq<int>, items: seq<Desc>, item: Desc, past: Desc)
    requires Passed(t, items, item, N, past)
    ensures EmptySlots(t) == 0
  {
    var a := Anchor(item);
    forall p | 0 <= p < N
      ensures t[p] >= 0
    {
      var k := if p >= a then p - a else p - a + N;
      assert Cyc(a, k) == p;
    }
    FullMeansNoEmptySlots(t);
  }

  /** As long as no slot points outside, there is an empty one. */
  lemma HasEmptySlot(t: seq<int>, items: seq<Desc>, dist: map<int, nat>)
    requires Holds(t, items, dist) && NoneOutside(t, |items|) && |items| < N
    ensures EmptySlots(t) > 0
  {
    SizeBelow(dist.Keys, |items|);
    assert |dist| == |dist.Keys|;
  }

  /** Filling the empty slot where the probe for an absent item ends keeps the table exact. */
  lemma InsertHolds(t: seq<int>, items: seq<Desc>, dist: map<int, nat>, idx: nat, i: nat, past: Desc)
    requires Holds(t, items, dist) && idx < |items| && Passed(t, items, items[idx], i, past) && i < N
    requires t[Cyc(Anchor(items[idx]), i)] < 0
    ensures idx !in dist && Holds(t[Cyc(Anchor(items[idx]), i) := idx], items, dist[idx := i])
  {
    hide EmptySlots, Anchor;
    PassedAbsent(t, items, dist, items[idx], i, past);
    var p := Cyc(Anchor(items[idx]), i);
    var t', dist' := t[p := idx], dist[idx := i];
    EmptySlotsUpdate(t, p, idx);
    forall j | j in dist'
      ensures 0 <= j < |items| && Sits(t', items[j], j, dist'[j])
    {
      if j != idx {
        assert Sits(t, items[j], j, dist[j]);
      }
    }
    assert NoneOutside(t', |items|) ==> NoneOutside(t, |items|) by {
      if NoneOutside(t', |items|) {
        forall q | 0 <= q < N
          ensures t[q] < |items|
        {
          assert q != p ==> t[q] == t'[q];
        }
      }
    }
  }

  /** Only the items at the held positions matter. */
  lemma HoldsFrame(t: seq<int>, items: seq<Desc>, items': seq<Desc>, dist: map<int, nat>)
    requires Holds(t, items, dist) && |items| == |items'|
    requires forall i :: i in dist && 0 <= i < |items| ==> items[i] == items'[i]
    ensures Holds(t, items', dist)
  {
    hide EmptySlots, Anchor;
    forall i | i in dist
      ensures 0 <= i < |items'| && Sits(t, items'[i], i, dist[i])
    {
      assert Sits(t, items[i], i, dist[i]);
    }
  }

  lemma EmptyHolds(t: seq<int>, items: seq<Desc>)
    requires |t| == N && forall p :: 0 <= p < N ==> t[p] == -1 || t[p] >= |items|
    ensures Holds(t, items, map[])
  {
    if NoneOutside(t, |items|) {
      forall p | 0 <= p < N
        ensures t[p] < 0
      {
        assert t[p] < |items|;
      }
      AllEmpty(t);
    }
  }

  // ------------------------------------------------------------------ emptying by moving the base

  /** The base after one reset. */
  function NextBase(base: int): nat
    requires base >= 0
  {
    if base >= INVALID_INDEX - N then 0 else base + N
  }

  /** The base after the given number of resets of a new set, whose constructor has already reset once. */
  function BaseAfter(resets: nat): nat {
    if resets == 0 then 0 else NextBase(BaseAfter(resets - 1))
  }

  /** A slot never written since the table was last cleared holds INVALID_INDEX; it reads as empty
      only while that value is outside the member window. */
  predicate Usable(base: nat) {
    !HasMember(INVALID_INDEX, base)
  }

  /** Resets from one clearing of the table to the next. */
  const PERIOD: nat := 5859437

  /** The position an untouched slot reads as when it does not read as empty. */
  const UNTOUCHED_POSITION: nat := 707

  lemma {:induction false} BaseCycle(resets: nat)
    ensures BaseAfter(resets) == N * (resets % PERIOD)
  {
    if resets > 0 {
      BaseCycle(resets - 1);
      var r := (resets - 1) % PERIOD;
      assert resets % PERIOD == if r == PERIOD - 1 then 0 else r + 1;
    }
  }

  /** Untouched slots read as empty after any number of resets but one in every 5859437; after that
      many they read as position 707. */
  lemma UntouchedReadsEmptyIff(resets: nat)
    ensures !HasMember(INVALID_INDEX, BaseAfter(resets)) <==> resets % PERIOD != PERIOD - 1
    ensures HasMember(INVALID_INDEX, BaseAfter(resets)) ==>
              INVALID_INDEX - BaseAfter(resets) == UNTOUCHED_POSITION
    ensures BaseAfter(resets) <= INVALID_INDEX
  {
    BaseCycle(resets);
  }

  // ------------------------------------------------------------------ the set

  class ArrayIndexHashSet {
    const items: array<Desc>
    const index: array<IndexType>
    var indexBase: nat
    ghost var resets: nat
    ghost var dist: map<int, nat>

    ghost predicate Valid()
      reads this, items, index
    {
      && index.Length == N && items.Length <= UNTOUCHED_POSITION
      && indexBase == BaseAfter(resets)
      && (forall p :: 0 <= p < N ==> index[p] < indexBase + items.Length || index[p] == INVALID_INDEX)
      && Holds(View(index[..], indexBase), items[..], dist)
    }

    /** Whether the item at one of the held positions is this one. */
    ghost predicate Has(item: Desc)
      reads this, items
    {
      Occurs(items[..], dist, item)
    }

    constructor (array_: array<Desc>)
      requires array_.Length <= UNTOUCHED_POSITION
      ensures Valid() && fresh(index) && items == array_ && dist == map[] && resets == 0
    {
      items := array_;
      index := new IndexType[N](_ => INVALID_INDEX);
      indexBase := 0;
      resets := 0;
      dist := map[];
      new;
      EmptyHolds(View(index[..], indexBase), items[..]);
    }

    /** reset. */
    method Reset()
      requires Valid()
      modifies this, index
      ensures Valid() && dist == map[]
      ensures resets == old(resets) + 1 && indexBase == NextBase(old(indexBase))
    {
      hide BaseAfter, Holds;
      BaseStep(resets);
      UntouchedReadsEmptyIff(resets + 1);
      if indexBase >= INVALID_INDEX - N {
        forall p | 0 <= p < N {
          index[p] := INVALID_INDEX;
        }
        indexBase := 0;
      } else {
        indexBase := indexBase + N;
      }
      resets := resets + 1;
      dist := map[];
      EmptyHolds(View(index[..], indexBase), items[..]);
    }

    /** The loop of set_index and get_index: walks from the anchor of item to an empty slot, to a slot
        that holds item, or all around the table. A slot that points past the array is compared with
        past, whatever lies there. */
    method Probe(item: Desc, past: Desc) returns (end: ProbeEnd, pos: nat, ghost steps: nat)
      requires Valid()
      ensures steps <= N && Passed(View(index[..], indexBase), items[..], item, steps, past)
      ensures end.Around? <==> steps == N
      ensures steps < N ==> pos == Cyc(Anchor(item), steps)
      ensures end.Empty? ==> View(index[..], indexBase)[pos] < 0
      ensures end.Match? ==> var position := View(index[..], indexBase)[pos];
                             position >= 0 && end.position == position && Item(items[..], position, past) == item
    {
      hide Holds, Passed, Anchor, BaseAfter, View, Cyc;
      pos := Anchor(item);
      var i: nat := 0;
      steps := 0;
      ghost var t, all := View(index[..], indexBase), items[..];
      PassedNone(t, all, item, past);
      CycNext(item, 0);
      while i < N
        invariant i <= N && steps == i && (i < N ==> pos == Cyc(Anchor(item), i))
        invariant Passed(t, all, item, i, past)
      {
        ViewAt(index[..], indexBase, pos);
        if !HasMember(index[pos], indexBase) {
          return Empty, pos, i;
        }
        var position := index[pos] - indexBase;
        if (if position < items.Length then items[position] else past) == item {
          return Match(position), pos, i;
        }
        PassedStep(t, all, item, i, past);
        CycNext(item, i);
        pos := pos + 1;
        if N == pos {
          pos := 0;
        }
        i := i + 1;
        steps := i;
      }
      end := Around;
    }

    /** Enters a position into the empty slot where its probe has ended. */
    method Enter(idx: nat, pos: nat, ghost steps: nat, ghost past: Desc)
      requires Valid() && idx < items.Length && steps < N && pos == Cyc(Anchor(items[idx]), steps)
      requires Passed(View(index[..], indexBase), items[..], items[idx], steps, past)
      requires View(index[..], indexBase)[pos] < 0
      modifies index, `dist
      ensures Valid() && dist == old(dist)[idx := steps]
    {
      hide Holds, Passed, Anchor, BaseAfter, View, Cyc;
      UntouchedReadsEmptyIff(resets);
      InsertHolds(View(index[..], indexBase), items[..], dist, idx, steps, past);
      ViewSet(index[..], indexBase, pos, idx);
      ghost var table := index[..];
      index[pos] := (idx + indexBase) % 0x1_0000_0000;
      assert index[..] == table[pos := index[pos]];
      dist := dist[idx := steps];
    }

    /** set_index. */
    method SetIndex(idx: nat, past: Desc) returns (ret: ObRet)
      requires Valid() && (idx < items.Length || idx >= N)
      modifies index, `dist
      ensures Valid()
      ensures idx >= N <==> ret == InvalidArgument
      ensures idx < items.Length ==>
                SetResult(items[..], old(dist), Usable(indexBase), old(View(index[..], indexBase)), idx, past, ret)
      ensures dist.Keys == old(dist.Keys) + (if ret == Success then {idx} else {})
      ensures ret != Success ==> index[..] == old(index[..])
    {
      if idx >= N {
        return InvalidArgument;
      }
      hide Holds, Passed, Anchor, BaseAfter, View, Cyc, Item, SetResult, Usable;
      ghost var t, all, was := View(index[..], indexBase), items[..], dist;
      UntouchedReadsEmptyIff(resets);
      ViewBounds(index[..], indexBase, items.Length);
      var end, pos, steps := Probe(items[idx], past);
      match end
      case Empty =>
        AbsentResult(t, all, was, Usable(indexBase), idx, steps, past, Success);
        Enter(idx, pos, steps, past);
        ret := Success;
      case Match(position) =>
        ret := if idx != position then EntryExist else Success;
        MatchResult(t, all, was, Usable(indexBase), idx, pos, past, ret);
      case Around =>
        ret := HashFull;
        AbsentResult(t, all, was, Usable(indexBase), idx, steps, past, ret);
    }

    /** get_index. */
    method GetIndex(item: Desc, past: Desc) returns (found: bool, idx: int)
      requires Valid()
      ensures Has(item) ==> found
      ensures found ==> idx >= 0 && if idx < items.Length then idx in dist && items[idx] == item
                                    else !Usable(indexBase) && item == past
      ensures !found ==> idx == -1
    {
      hide Holds, Passed, Anchor, BaseAfter, EmptySlots, Occurs, View, Cyc, NoneOutside;
      UntouchedReadsEmptyIff(resets);
      ViewBounds(index[..], indexBase, items.Length);
      ghost var t, all := View(index[..], indexBase), items[..];
      var end, pos, steps := Probe(item, past);
      match end
      case Match(position) =>
        HoldsAt(t, all, dist, pos);
        found, idx := true, position;
      case _ =>
        PassedAbsent(t, all, dist, item, steps, past);
        found, idx := false, -1;
    }
  }

  datatype ProbeEnd = Empty | Match(position: nat) | Around

  /** What set_index answers: the entry exists exactly when another held position has its item, and
      otherwise it is entered, for a set in a usable state. In the unusable state a slot that points
      past the array may stop it, or the table may have no empty slot left. */
  ghost predicate SetResult(items: seq<Desc>, dist: map<int, nat>, usable: bool, t: seq<int>,
                            idx: nat, past: Desc, ret: ObRet)
    requires idx < |items|
  {
    && (Occurs(items, dist, items[idx]) && idx !in dist ==> ret == EntryExist)
    && (ret == EntryExist ==> (Occurs(items, dist, items[idx]) && idx !in dist) || (!usable && items[idx] == past))
    && (ret == HashFull ==> !usable && EmptySlots(t) == 0)
    && (ret == Success || ret == EntryExist || ret == HashFull)
  }

  /** The probe for the item at idx ended at an empty slot, or went all around. */
  lemma AbsentResult(t: seq<int>, items: seq<Desc>, dist: map<int, nat>, usable: bool,
                     idx: nat, steps: nat, past: Desc, ret: ObRet)
    requires Holds(t, items, dist) && idx < |items| < N && Passed(t, items, items[idx], steps, past)
    requires usable ==> NoneOutside(t, |items|)
    requires if steps == N then ret == HashFull else ret == Success && t[Cyc(Anchor(items[idx]), steps)] < 0
    ensures SetResult(items, dist, usable, t, idx, past, ret)
  {
    hide Holds, Passed, Anchor, EmptySlots, Occurs, Cyc, NoneOutside;
    PassedAbsent(t, items, dist, items[idx], steps, past);
    if steps == N {
      PassedEverywhere(t, items, items[idx], past);
      if usable {
        HasEmptySlot(t, items, dist);
      }
    }
  }

  /** The probe for the item at idx met a slot that holds it. */
  lemma MatchResult(t: seq<int>, items: seq<Desc>, dist: map<int, nat>, usable: bool,
                    idx: nat, pos: nat, past: Desc, ret: ObRet)
    requires Holds(t, items, dist) && idx < |items| && pos < N
    requires usable ==> NoneOutside(t, |items|)
    requires t[pos] >= 0 && Item(items, t[pos], past) == items[idx]
    requires ret == if idx != t[pos] then EntryExist else Success
    ensures SetResult(items, dist, usable, t, idx, past, ret)
    ensures ret == Success ==> idx in dist
  {
    hide EmptySlots, Anchor, Cyc;
    if t[pos] < |items| {
      OccursOnce(t, items, dist, t[pos], idx);
    }
  }

  lemma BaseStep(resets: nat)
    ensures BaseAfter(resets + 1) == NextBase(BaseAfter(resets))
  {
  }

  lemma ViewAt(index: seq<IndexType>, base: nat, p: nat)
    requires |index| == N && p < N
    ensures View(index, base)[p] == if HasMember(index[p], base) then index[p] - base else -1
  {
  }

  lemma ViewSet(index: seq<IndexType>, base: nat, p: nat, idx: nat)
    requires |index| == N && p < N && idx < N && idx + base < 0x1_0000_0000
    ensures View(index[p := idx + base], base) == View(index, base)[p := idx]
  {
  }

  /** One step on from slot Cyc(a, i), wrapping at the end of the table. */
  lemma CycNext(item: Desc, i: nat)
    requires i < N
    ensures Cyc(Anchor(item), 0) == Anchor(item)
    ensures i + 1 < N ==>
            var pos := Cyc(Anchor(item), i) + 1;
            Cyc(Anchor(item), i + 1) == if pos == N then 0 else pos
  {
  }

  /** Slots point past the array only in the unusable state, where the untouched ones do. */
  lemma ViewBounds(index: seq<IndexType>, base: nat, capacity: nat)
    requires |index| == N
    requires forall p :: 0 <= p < N ==> index[p] < base + capacity || index[p] == INVALID_INDEX
    ensures Usable(base) ==> NoneOutside(View(index, base), capacity)
  {
  }

  lemma HoldsAt(t: seq<int>, items: seq<Desc>, dist: map<int, nat>, p: nat)
    requires Holds(t, items, dist) && p < N
    ensures |t| == N && -1 <= t[p] && (0 <= t[p] < |items| ==> t[p] in dist)
  {
  }

  /** Two positions with one item: either they are the same, or the second is not held. */
  lemma OccursOnce(t: seq<int>, items: seq<Desc>, dist: map<int, nat>, j: nat, idx: nat)
    requires Holds(t, items, dist) && j in dist && j < |items| && idx < |items| && items[j] == items[idx]
    ensures Occurs(items, dist, items[idx])
    ensures idx in dist <==> idx == j
  {
  }

  lemma PassedNone(t: seq<int>, items: seq<Desc>, item: Desc, past: Desc)
    requires |t| == N
    ensures Passed(t, items, item, 0, past)
  {
  }

  lemma PassedStep(t: seq<int>, items: seq<Desc>, item: Desc, i: nat, past: Desc)
    requires Passed(t, items, item, i, past) && i < N
    requires t[Cyc(Anchor(item), i)] >= 0 && Item(items, t[Cyc(Anchor(item), i)], past) != item
    ensures Passed(t, items, item, i + 1, past)
  {
  }
}
