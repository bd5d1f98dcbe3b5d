/** The address manager's operations as functions from state to state, and the proof
    that each of them keeps every index in agreement. */
module AddrSteps {
  import opened AddrBook

  /** The manager's whole state. */
  datatype Book = Book(
    hash: Hashing,
    idCount: int,
    info: Infos,
    addr: map<NetAddr, int>,
    random: seq<int>,
    nTried: int,
    tried: Table,
    nNew: int,
    table: Table,
    lastGood: int)

  function NewBook(hash: Hashing): Book
  {
    Book(hash, 0, map[], map[], [], 0, EmptyTable(TRIED_BUCKET_COUNT), 0, EmptyTable(NEW_BUCKET_COUNT), 1)
  }

  /** All indexes agree, except that the loose records may lack a reference. */
  ghost predicate Structure(s: Book, loose: set<int>)
  {
    && IdsBelow(s.info, s.idCount)
    && AddrIndex(s.info, s.addr)
    && RandomIndex(s.info, s.random)
    && NewSlots(s.hash, s.info, s.table)
    && RefCounts(s.hash, s.info, s.table)
    && TriedSlots(s.hash, s.info, s.tried)
    && Placed(s.info, loose)
  }

  lemma StructureParts(s: Book, loose: set<int>)
    requires Structure(s, loose)
    ensures Shape(s.table, NEW_BUCKET_COUNT) && Shape(s.tried, TRIED_BUCKET_COUNT) && EMPTY !in s.info
    ensures |s.table| == NEW_BUCKET_COUNT && forall b, i :: 0 <= b < NEW_BUCKET_COUNT && 0 <= i < BUCKET_SIZE ==>
              |s.table[b]| == BUCKET_SIZE && (s.table[b][i] != EMPTY ==> s.table[b][i] in s.info)
    ensures IdsBelow(s.info, s.idCount) && AddrIndex(s.info, s.addr) && RandomIndex(s.info, s.random)
    ensures NewSlots(s.hash, s.info, s.table)
    ensures RefCounts(s.hash, s.info, s.table) && TriedSlots(s.hash, s.info, s.tried) && Placed(s.info, loose)
  {
  }

  lemma StructureWhole(s: Book, loose: set<int>)
    requires IdsBelow(s.info, s.idCount) && AddrIndex(s.info, s.addr) && RandomIndex(s.info, s.random)
    requires NewSlots(s.hash, s.info, s.table)
    requires RefCounts(s.hash, s.info, s.table) && TriedSlots(s.hash, s.info, s.tried) && Placed(s.info, loose)
    ensures Structure(s, loose)
  {
  }

  /** The counters are exact, up to the given number of records already or still counted as new. */
  ghost predicate Counters(s: Book, uncounted: int)
  {
    && s.nNew == |NewIds(s.info)| - uncounted
    && s.nTried == |TriedIds(s.info)|
  }

  /** However far the counters were from exact, they still are. */
  ghost predicate SameOffset(s: Book, t: Book)
  {
    && t.nNew - |NewIds(t.info)| == s.nNew - |NewIds(s.info)|
    && t.nTried == s.nTried && TriedIds(t.info) == TriedIds(s.info)
  }

  /** Everything the debug routine looks at, except the recorded times. */
  ghost predicate Consistent(s: Book)
  {
    Structure(s, {}) && Counters(s, 0)
  }

  ghost predicate Valid(s: Book)
  {
    Consistent(s) && Times(s.info)
  }

  lemma NewBookValid(hash: Hashing)
    ensures Valid(NewBook(hash))
  {
  }

  // ----- the random order -----

  function Swap(s: Book, p1: nat, p2: nat): Book
    requires p1 != p2 ==> p1 < |s.random| && p2 < |s.random| && s.random[p1] in s.info && s.random[p2] in s.info
  {
    if p1 == p2 then s else
      var n1, n2 := s.random[p1], s.random[p2];
      var info1 := s.info[n1 := s.info[n1].(randomPos := p2)];
      s.(info := info1[n2 := info1[n2].(randomPos := p1)], random := s.random[p1 := n2][p2 := n1])
  }

  lemma SwapKeepsIndex(s: Book, p1: nat, p2: nat)
    requires RandomIndex(s.info, s.random) && (p1 == p2 || (p1 < |s.random| && p2 < |s.random|))
    ensures var t := Swap(s, p1, p2);
            && RandomIndex(t.info, t.random)
            && SameButOrder(s.info, t.info) && t.info.Keys == s.info.Keys
            && multiset(t.random) == multiset(s.random)
  {
    hide RandomIndex;
    PlacesKnown(s.info, s.random);
    if p1 != p2 {
      var n1, n2 := s.random[p1], s.random[p2];
      var info1 := s.info[n1 := s.info[n1].(randomPos := p2)];
      SwapIndex(s.info, s.random, p1, p2, info1[n2 := info1[n2].(randomPos := p1)], s.random[p1 := n2][p2 := n1]);
    }
  }

  lemma PlacesKnown(info: Infos, random: seq<int>)
    requires RandomIndex(info, random)
    ensures forall p :: 0 <= p < |random| ==> random[p] in info && info[random[p]].randomPos == p
  {
  }

  lemma SwapIndex(info: Infos, random: seq<int>, p1: nat, p2: nat, info1: Infos, random1: seq<int>)
    requires RandomIndex(info, random) && p1 < |random| && p2 < |random| && p1 != p2
    requires random1 == random[p1 := random[p2]][p2 := random[p1]] && info1.Keys == info.Keys
    requires forall n :: n in info ==> info1[n] == info[n].(randomPos := info1[n].randomPos)
    requires forall n :: n in info ==>
      info1[n].randomPos == if n == random[p1] then p2 else if n == random[p2] then p1 else info[n].randomPos
    ensures RandomIndex(info1, random1)
  {
    forall n | n in info1 ensures 0 <= info1[n].randomPos < |random1| && random1[info1[n].randomPos] == n {
      assert n in info;
    }
    forall p | 0 <= p < |random1| ensures random1[p] in info1 && info1[random1[p]].randomPos == p {
      assert random[p] in info && info[random[p]].randomPos == p;
    }
  }

  /** Another order of the same records satisfies the other indexes as well. */
  lemma ReorderKeeps(s: Book, t: Book, loose: set<int>)
    requires Structure(s, loose) && t == s.(info := t.info, random := t.random)
    requires SameButOrder(s.info, t.info) && t.info.Keys == s.info.Keys && RandomIndex(t.info, t.random)
    ensures Structure(t, loose)
    ensures NewIds(t.info) == NewIds(s.info) && TriedIds(t.info) == TriedIds(s.info)
  {
    assert forall n :: n in s.info <==> n in t.info;
    forall n | n in t.info
      ensures |RefBuckets(s.hash, s.table, t.info[n].Service(), n)| ==
          |RefBuckets(s.hash, s.table, s.info[n].Service(), n)|
    {
      assert t.info[n].Service() == s.info[n].Service();
    }
  }

  // ----- forgetting a record -----

  function Forget(s: Book, n: int): Book
    requires RandomIndex(s.info, s.random) && n in s.info
  {
    var t := Swap(s, s.info[n].randomPos, |s.random| - 1);
    t.(random := t.random[..|t.random| - 1], addr := t.addr - {t.info[n].Net()}, info := t.info - {n}, nNew :=
        t.nNew - 1)
  }

  lemma ForgetKeepsRandom(s: Book, n: int)
    requires RandomIndex(s.info, s.random) && n in s.info
    ensures var t := Forget(s, n);
            && RandomIndex(t.info, t.random)
            && SameButOrder(s.info, t.info) && t.info.Keys == s.info.Keys - {n}
            && t == s.(random := t.random, addr := s.addr - {s.info[n].Net()}, info := t.info, nNew := s.nNew - 1)
  {
    hide RandomIndex, SameButOrder, Swap;
    OwnPlace(s.info, s.random, n);
    var pos, last := s.info[n].randomPos, |s.random| - 1;
    SwapKeepsIndex(s, pos, last);
    SwapShape(s, pos, last);
    var u := Swap(s, pos, last);
    DropLast(u.info, u.random, n);
    DropOrder(s.info, u.info, n);
  }

  lemma OwnPlace(info: Infos, random: seq<int>, n: int)
    requires RandomIndex(info, random) && n in info
    ensures 0 <= info[n].randomPos < |random| && random[info[n].randomPos] == n
    ensures forall p :: 0 <= p < |random| ==> random[p] in info
  {
  }

  /** What a swap leaves alone, and who ends up last. */
  lemma SwapShape(s: Book, p1: nat, p2: nat)
    requires p1 < |s.random| && p2 < |s.random| && s.random[p1] in s.info && s.random[p2] in s.info
    ensures var t := Swap(s, p1, p2);
      t == s.(info := t.info, random := t.random) && |t.random| == |s.random| && t.random[p2] == s.random[p1]
  {
  }

  lemma DropLast(info: Infos, random: seq<int>, n: int)
    requires RandomIndex(info, random) && |random| > 0 && random[|random| - 1] == n
    ensures n in info && RandomIndex(info - {n}, random[..|random| - 1])
  {
    var last := |random| - 1;
    assert info[n].randomPos == last;
    forall m | m in info - {n} ensures 0 <= info[m].randomPos < last && random[info[m].randomPos] == m { }
  }

  lemma DropOrder(before: Infos, after: Infos, n: int)
    requires SameButOrder(before, after) && after.Keys == before.Keys && n in before
    ensures SameButOrder(before, after - {n}) && (after - {n}).Keys == before.Keys - {n}
    ensures after[n].Net() == before[n].Net()
  {
  }

  lemma ForgetKeeps(s: Book, n: int, loose: set<int>)
    requires Structure(s, loose) && n in s.info && !s.info[n].inTried && s.info[n].refCount == 0
    ensures var t := Forget(s, n);
            && Structure(t, loose - {n})
            && SameButOrder(s.info, t.info) && t.info.Keys == s.info.Keys - {n}
            && t == s.(random := t.random, addr := t.addr, info := t.info, nNew := s.nNew - 1)
            && NewIds(t.info) == NewIds(s.info) - {n} && TriedIds(t.info) == TriedIds(s.info)
            && |NewIds(t.info)| == |NewIds(s.info)| - 1
  {
    hide *;
    StructureParts(s, loose);
    var t := Forget(s, n);
    ForgetKeepsRandom(s, n);
    ForgetKeepsPlaced(s.info, t.info, loose, s.idCount, n);
    ForgetKeepsAddrIndex(s.info, t.info, s.addr, n);
    ForgetKeepsTables(s.hash, s.info, t.info, s.table, s.tried, n);
    ForgetIds(s.info, t.info, n);
    StructureWhole(t, loose - {n});
  }

  // ----- clearing a cell of the new table -----

  /** The record in the given filled cell loses that reference. */
  function Release(s: Book, b: nat, i: nat): Book
    requires Shape(s.table, NEW_BUCKET_COUNT) && b < NEW_BUCKET_COUNT && i < BUCKET_SIZE && s.table[b][i] in s.info
  {
    var d := s.table[b][i];
    s.(info := s.info[d := s.info[d].(refCount := s.info[d].refCount - 1)], table := SetCell(s.table, b, i, EMPTY))
  }

  /** Empties a cell; the record it held is forgotten together with its last reference. */
  function ClearNew(s: Book, b: nat, i: nat): Book
    requires RandomIndex(s.info, s.random) && NewSlots(s.hash, s.info, s.table) && b < NEW_BUCKET_COUNT
    requires i < BUCKET_SIZE
  {
    var d := s.table[b][i];
    if d == EMPTY then s else
      var r := Release(s, b, i);
      if r.info[d].refCount == 0 then
        SamePlacesKeepsRandom(s.info, r.info, s.random);
        Forget(r, d)
      else r
  }

  lemma SamePlacesKeepsRandom(before: Infos, after: Infos, random: seq<int>)
    requires SamePlaces(before, after) && RandomIndex(before, random)
    ensures RandomIndex(after, random)
  {
    assert forall p :: 0 <= p < |random| ==> random[p] in before && random[p] in after;
  }

  lemma ReleaseStructure(s: Book, b: nat, i: nat, loose: set<int>)
    requires Structure(s, loose) && b < NEW_BUCKET_COUNT && i < BUCKET_SIZE && s.table[b][i] != EMPTY
    ensures var d := s.table[b][i];
            var r := Release(s, b, i);
            && s.info[d].refCount > 0 && !s.info[d].inTried
            && Structure(r, loose + {d})
            && (s.info[d].refCount > 1 ==> Structure(r, loose))
            && NewIds(r.info) == NewIds(s.info) && TriedIds(r.info) == TriedIds(s.info)
  {
    hide RefCounts, TriedSlots, AddrIndex, RandomIndex, NewIds, TriedIds;
    StructureParts(s, loose);
    ReleaseKeeps(s.hash, s.info, s.table, s.tried, b, i);
    SamePlacesKeeps(s.info, Release(s, b, i).info, s.addr, s.random, s.idCount);
  }

  /** What emptying a cell does to the records. */
  ghost predicate ClearedOnce(before: Book, after: Book, b: nat, i: nat)
    requires Shape(before.table, NEW_BUCKET_COUNT) && b < NEW_BUCKET_COUNT && i < BUCKET_SIZE
    requires before.table[b][i] != EMPTY ==> before.table[b][i] in before.info
  {
    var d := before.table[b][i];
    && after == before.(info := after.info, addr := after.addr, random := after.random, nNew := after.nNew,
                        table := SetCell(before.table, b, i, EMPTY))
    && SameContents(before.info, after.info)
    && after.info.Keys == (if d != EMPTY && before.info[d].refCount ==
          1 then before.info.Keys - {d} else before.info.Keys)
    && forall n :: n in after.info ==>
         && after.info[n].inTried == before.info[n].inTried
         && after.info[n].refCount == before.info[n].refCount - (if n == d then 1 else 0)
  }

  lemma ClearNewCases(s: Book, b: nat, i: nat)
    requires RandomIndex(s.info, s.random) && NewSlots(s.hash, s.info, s.table) && b < NEW_BUCKET_COUNT
    requires i < BUCKET_SIZE
    ensures s.table[b][i] == EMPTY ==> ClearNew(s, b, i) == s
    ensures s.table[b][i] != EMPTY && s.info[s.table[b][i]].refCount != 1 ==> ClearNew(s, b, i) == Release(s, b, i)
    ensures s.table[b][i] != EMPTY && s.info[s.table[b][i]].refCount == 1 ==>
              && RandomIndex(Release(s, b, i).info, s.random)
              && ClearNew(s, b, i) == Forget(Release(s, b, i), s.table[b][i])
  {
    hide Forget, Swap;
    var d := s.table[b][i];
    if d != EMPTY {
      SamePlacesKeepsRandom(s.info, Release(s, b, i).info, s.random);
    }
  }

  lemma ReleaseEffect(s: Book, b: nat, i: nat)
    requires Shape(s.table, NEW_BUCKET_COUNT) && b < NEW_BUCKET_COUNT && i < BUCKET_SIZE && s.table[b][i] in s.info
    ensures var d := s.table[b][i];
            var r := Release(s, b, i);
            && r.info == s.info[d := s.info[d].(refCount := s.info[d].refCount - 1)]
            && r == s.(info := r.info, table := SetCell(s.table, b, i, EMPTY))
  {
  }

  lemma EmptyAlready(s: Book, b: nat, i: nat)
    requires Shape(s.table, NEW_BUCKET_COUNT) && b < NEW_BUCKET_COUNT && i < BUCKET_SIZE && s.table[b][i] == EMPTY
    ensures SetCell(s.table, b, i, EMPTY) == s.table
  {
    assert s.table[b][i := EMPTY] == s.table[b];
  }

  lemma ClearNewKeeps(s: Book, b: nat, i: nat, loose: set<int>)
    requires Structure(s, loose) && b < NEW_BUCKET_COUNT && i < BUCKET_SIZE && s.table[b][i] !in loose
    ensures Structure(ClearNew(s, b, i), loose)
    ensures SameOffset(s, ClearNew(s, b, i))
  {
    hide NewSlots, RefCounts, TriedSlots, AddrIndex, RandomIndex, NewIds, TriedIds, IdsBelow, Placed, Forget;
    hide Structure, ClearNew, Release, Shape, SetCell;
    StructureParts(s, loose);
    var d := s.table[b][i];
    ClearNewCases(s, b, i);
    if d != EMPTY {
      ReleaseStructure(s, b, i, loose);
      ReleaseEffect(s, b, i);
      if s.info[d].refCount == 1 {
        ForgetKeeps(Release(s, b, i), d, loose + {d});
        assert (loose + {d}) - {d} == loose;
      }
    }
  }

  lemma ClearNewEffect(s: Book, b: nat, i: nat)
    requires RandomIndex(s.info, s.random) && NewSlots(s.hash, s.info, s.table) && EMPTY !in s.info
    requires b < NEW_BUCKET_COUNT && i < BUCKET_SIZE
    ensures ClearedOnce(s, ClearNew(s, b, i), b, i)
  {
    hide RandomIndex, Forget, ClearNew, Release, SetCell;
    var d := s.table[b][i];
    ClearNewCases(s, b, i);
    if d == EMPTY {
      EmptyAlready(s, b, i);
    } else {
      ReleaseEffect(s, b, i);
      if s.info[d].refCount == 1 {
        ForgetKeepsRandom(Release(s, b, i), d);
      }
    }
  }

  // ----- moving a record to the tried table -----

  /** Record n loses its reference in one bucket of the new table, if it has one there. */
  function ReleaseOne(s: Book, n: int, b: nat): Book
    requires Shape(s.table, NEW_BUCKET_COUNT) && n in s.info && b < NEW_BUCKET_COUNT
  {
    var i := s.hash.NewPos(s.info[n].Service(), b);
    if s.table[b][i] == n then Release(s, b, i) else s
  }

  /** Only references of n in the first buckets are gone, and everything still agrees. */
  ghost predicate Released(s: Book, r: Book, n: int, upto: nat)
  {
    && Structure(s, {n}) && n in s.info && Structure(r, {n}) && n in r.info && upto <= NEW_BUCKET_COUNT
    && r == s.(info := s.info[n := s.info[n].(refCount := r.info[n].refCount)], table := r.table)
    && LostOnly(s.table, r.table, n)
    && (forall b :: 0 <= b < upto ==> r.table[b][s.hash.NewPos(s.info[n].Service(), b)] != n)
  }

  /** Cells are as before, or held n and are empty now. */
  ghost predicate LostOnly(before: Table, after: Table, n: int)
  {
    && Shape(before, NEW_BUCKET_COUNT) && Shape(after, NEW_BUCKET_COUNT)
    && forall b, i :: 0 <= b < NEW_BUCKET_COUNT && 0 <= i < BUCKET_SIZE ==>
         after[b][i] == before[b][i] || (before[b][i] == n && after[b][i] == EMPTY)
  }

  lemma ReleasedNone(s: Book, n: int)
    requires Structure(s, {n}) && n in s.info
    ensures Released(s, s, n, 0)
  {
    hide RefCounts, TriedSlots, AddrIndex, RandomIndex, IdsBelow, Placed;
  }

  lemma ReleasedNext(s: Book, u: Book, n: int, b: nat)
    requires Released(s, u, n, b) && b < NEW_BUCKET_COUNT
    ensures Shape(u.table, NEW_BUCKET_COUNT) && Released(s, ReleaseOne(u, n, b), n, b + 1)
  {
    hide RefCounts, TriedSlots, AddrIndex, RandomIndex, IdsBelow, Placed, Structure, LostOnly, NewSlots;
    StructureParts(u, {n});
    var i := u.hash.NewPos(u.info[n].Service(), b);
    if u.table[b][i] == n {
      ReleaseStructure(u, b, i, {n});
      assert {n} + {n} == {n};
      LostOneMore(s.table, u.table, n, b, i);
    } else {
      LostShapes(s.table, u.table, n);
    }
  }

  lemma LostShapes(before: Table, after: Table, n: int)
    requires LostOnly(before, after, n)
    ensures Shape(before, NEW_BUCKET_COUNT) && Shape(after, NEW_BUCKET_COUNT)
  {
  }

  lemma LostOneMore(before: Table, after: Table, n: int, b: nat, i: nat)
    requires LostOnly(before, after, n) && b < NEW_BUCKET_COUNT && i < BUCKET_SIZE && after[b][i] == n && n != EMPTY
    ensures LostOnly(before, SetCell(after, b, i, EMPTY), n)
  {
  }

  /** Record n loses its references in the first buckets of the new table. */
  function ReleaseAll(s: Book, n: int, upto: nat): (r: Book)
    requires Structure(s, {n}) && n in s.info && upto <= NEW_BUCKET_COUNT
    ensures Released(s, r, n, upto)
  {
    hide Released, Structure, ReleaseOne;
    if upto == 0 then
      ReleasedNone(s, n);
      s
    else
      var u := ReleaseAll(s, n, upto - 1);
      ReleasedNext(s, u, n, upto - 1);
      ReleasedThere(s, u, n, upto - 1);
      ReleaseOne(u, n, upto - 1)
  }

  lemma ReleasedThere(s: Book, u: Book, n: int, upto: nat)
    requires Released(s, u, n, upto)
    ensures n in u.info
  {
  }

  lemma ReleaseAllDone(s: Book, n: int)
    requires Structure(s, {n}) && n in s.info
    ensures var r := ReleaseAll(s, n, NEW_BUCKET_COUNT);
            && Structure(r, {n}) && n in r.info && r.info[n].refCount == 0
            && NewIds(r.info) == NewIds(s.info) && TriedIds(r.info) == TriedIds(s.info)
  {
    hide ReleaseAll, TriedSlots, AddrIndex, RandomIndex, IdsBelow, Placed, NewSlots, LostOnly;
    var r := ReleaseAll(s, n, NEW_BUCKET_COUNT);
    StructureParts(r, {n});
    NoBuckets(r, n);
    SameStatus(s.info, r.info, n);
  }

  lemma NoBuckets(r: Book, n: int)
    requires Shape(r.table, NEW_BUCKET_COUNT) && RefCounts(r.hash, r.info, r.table) && n in r.info
    requires forall b :: 0 <= b < NEW_BUCKET_COUNT ==> r.table[b][r.hash.NewPos(r.info[n].Service(), b)] != n
    ensures r.info[n].refCount == 0
  {
    assert RefBuckets(r.hash, r.table, r.info[n].Service(), n) == {};
  }

  lemma SameStatus(before: Infos, after: Infos, n: int)
    requires n in before && n in after && after == before[n := before[n].(refCount := after[n].refCount)]
    ensures NewIds(after) == NewIds(before) && TriedIds(after) == TriedIds(before)
  {
  }

  /** Takes the record out of the given filled tried cell. */
  function Leave(s: Book, kb: nat, kp: nat): Book
    requires Shape(s.tried, TRIED_BUCKET_COUNT) && kb < TRIED_BUCKET_COUNT && kp < BUCKET_SIZE
    requires s.tried[kb][kp] in s.info
  {
    var e := s.tried[kb][kp];
    s.(info := s.info[e := s.info[e].(inTried := false)], tried := SetCell(s.tried, kb, kp, EMPTY), nTried :=
        s.nTried - 1)
  }

  lemma LeaveKeeps(s: Book, kb: nat, kp: nat, loose: set<int>)
    requires Structure(s, loose) && kb < TRIED_BUCKET_COUNT && kp < BUCKET_SIZE && s.tried[kb][kp] != EMPTY
    ensures s.tried[kb][kp] in s.info && Shape(s.tried, TRIED_BUCKET_COUNT)
    ensures var e := s.tried[kb][kp];
            var t := Leave(s, kb, kp);
            && Structure(t, loose + {e}) && s.info[e].refCount == 0 && s.info[e].inTried
            && NewIds(t.info) == NewIds(s.info) + {e} && TriedIds(t.info) == TriedIds(s.info) - {e}
  {
    hide RefCounts, NewSlots, AddrIndex, RandomIndex, NewIds, TriedIds;
    StructureParts(s, loose);
    LeaveTriedKeeps(s.hash, s.info, s.table, s.tried, kb, kp);
    SamePlacesKeeps(s.info, Leave(s, kb, kp).info, s.addr, s.random, s.idCount);
  }

  /** Gives an unreferenced record a reference in the empty cell of the given bucket. */
  function Refer(s: Book, b: nat, n: int): Book
    requires Shape(s.table, NEW_BUCKET_COUNT) && n in s.info && b < NEW_BUCKET_COUNT
  {
    s.(info := s.info[n := s.info[n].(refCount := s.info[n].refCount + 1)],
       table := SetCell(s.table, b, s.hash.NewPos(s.info[n].Service(), b), n))
  }

  lemma ReferStructure(s: Book, b: nat, n: int, loose: set<int>)
    requires Structure(s, loose) && n in s.info && !s.info[n].inTried && b < NEW_BUCKET_COUNT
    requires s.table[b][s.hash.NewPos(s.info[n].Service(), b)] == EMPTY && s.info[n].refCount < NEW_BUCKETS_PER_ADDRESS
    ensures Shape(s.table, NEW_BUCKET_COUNT)
    ensures var t := Refer(s, b, n);
            && Structure(t, loose - {n})
            && NewIds(t.info) == NewIds(s.info) && TriedIds(t.info) == TriedIds(s.info)
  {
    hide TriedSlots, NewSlots, AddrIndex, RandomIndex, NewIds, TriedIds, Structure, RefCounts, Placed, IdsBelow;
    hide SamePlaces;
    StructureParts(s, loose);
    NotLow(s.hash, s.info, s.table, n);
    ReferKeeps(s.hash, s.info, s.table, s.tried, b, n);
    var t := Refer(s, b, n);
    SamePlacesKeeps(s.info, t.info, s.addr, s.random, s.idCount);
    PlacedOnce(s.info, t.info, n, loose);
    StructureWhole(t, loose - {n});
  }

  lemma LooseIsNew(info: Infos, n: int)
    requires Placed(info, {n}) && n in info
    ensures !info[n].inTried
  {
  }

  lemma NotLow(h: Hashing, info: Infos, table: Table, n: int)
    requires Shape(table, NEW_BUCKET_COUNT) && RefCounts(h, info, table) && n in info
    ensures info[n].refCount >= 0
  {
    hide RefBuckets;
  }

  lemma PlacedOnce(before: Infos, after: Infos, n: int, loose: set<int>)
    requires Placed(before, loose) && n in before && before[n].refCount >= 0
    requires after == before[n := before[n].(refCount := before[n].refCount + 1)]
    ensures Placed(after, loose - {n})
  {
  }

  /** Enters an unreferenced record into its tried cell. */
  function Enter(s: Book, n: int): Book
    requires Shape(s.tried, TRIED_BUCKET_COUNT) && n in s.info
  {
    var service := s.info[n].Service();
    s.(info := s.info[n := s.info[n].(inTried := true)],
       tried := SetCell(s.tried, s.hash.TriedBucket(service), s.hash.TriedPos(service), n),
       nTried := s.nTried + 1)
  }

  lemma EnterKeeps(s: Book, n: int, loose: set<int>)
    requires Structure(s, loose) && n in s.info && !s.info[n].inTried && s.info[n].refCount == 0
    requires s.tried[s.hash.TriedBucket(s.info[n].Service())][s.hash.TriedPos(s.info[n].Service())] == EMPTY
    ensures Shape(s.tried, TRIED_BUCKET_COUNT)
    ensures var t := Enter(s, n);
            && Structure(t, loose - {n})
            && |NewIds(t.info)| == |NewIds(s.info)| - 1 && |TriedIds(t.info)| == |TriedIds(s.info)| + 1
  {
    hide RefCounts, NewSlots, AddrIndex, RandomIndex;
    StructureParts(s, loose);
    assert n in NewIds(s.info) && n !in TriedIds(s.info);
    EnterTriedKeeps(s.hash, s.info, s.table, s.tried, n);
    SamePlacesKeeps(s.info, Enter(s, n).info, s.addr, s.random, s.idCount);
  }

  /** The new bucket a record is placed in on behalf of the source that first announced it. */
  function HomeBucket(s: Book, n: int): (b: nat)
    requires n in s.info
    ensures b < NEW_BUCKET_COUNT
  {
    s.hash.NewBucket(s.info[n].Service(), s.info[n].source)
  }

  /** A record without references is in no cell, so emptying a cell leaves it alone. */
  lemma ClearNewSpares(s: Book, b: nat, i: nat, loose: set<int>)
    requires Structure(s, loose) && b < NEW_BUCKET_COUNT && i < BUCKET_SIZE
    requires forall n :: n in loose ==> n in s.info && s.info[n].refCount == 0
    ensures s.table[b][i] !in loose
    ensures var t := ClearNew(s, b, i);
            && Structure(t, loose) && SameOffset(s, t) && t.table[b][i] == EMPTY
            && t.tried == s.tried && t.hash == s.hash && t.lastGood == s.lastGood && t.idCount == s.idCount
            && forall n :: n in loose ==> n in t.info && t.info[n] == s.info[n].(randomPos := t.info[n].randomPos)
  {
    hide NewSlots, RefCounts, TriedSlots, AddrIndex, RandomIndex, NewIds, TriedIds, IdsBelow, Placed, Structure;
    hide ClearNew, Shape;
    StructureParts(s, loose);
    forall n | n in loose ensures s.table[b][i] != n {
      Unreferenced(s.hash, s.info, s.table, n);
    }
    ClearNewKeeps(s, b, i, loose);
    ClearNewEffect(s, b, i);
  }

  /** An eviction can take place: the cell is filled, and n is the unreferenced record it is to make room for. */
  ghost predicate CanEvict(s: Book, kb: nat, kp: nat, n: int)
  {
    && Structure(s, {n}) && n in s.info && s.info[n].refCount == 0 && !s.info[n].inTried
    && kb < TRIED_BUCKET_COUNT && kp < BUCKET_SIZE && Shape(s.tried, TRIED_BUCKET_COUNT)
    && s.tried[kb][kp] != EMPTY && s.tried[kb][kp] in s.info
  }

  lemma EvictCan(s: Book, kb: nat, kp: nat, n: int)
    requires Structure(s, {n}) && n in s.info && s.info[n].refCount == 0
    requires kb < TRIED_BUCKET_COUNT && kp < BUCKET_SIZE && s.tried[kb][kp] != EMPTY
    ensures CanEvict(s, kb, kp, n)
  {
    hide NewSlots, RefCounts, AddrIndex, RandomIndex, IdsBelow;
  }

  /** The first stage: the occupant has left the tried table and is as loose as the newcomer. */
  lemma LeaveStage(s: Book, kb: nat, kp: nat, n: int)
    requires CanEvict(s, kb, kp, n)
    ensures var e := s.tried[kb][kp];
            var t := Leave(s, kb, kp);
            && n != e && Structure(t, {n, e}) && s.info[e].refCount == 0 && s.info[e].inTried
            && RandomIndex(t.info, t.random) && NewSlots(t.hash, t.info, t.table) && RefCounts(t.hash, t.info, t.table)
            && Shape(t.table, NEW_BUCKET_COUNT) && EMPTY !in t.info
            && e in t.info && t.info == s.info[e := s.info[e].(inTried := false)] && t.table == s.table && t.hash ==
                  s.hash
            && NewIds(t.info) == NewIds(s.info) + {e} && TriedIds(t.info) == TriedIds(s.info) - {e}
  {
    hide NewSlots, RefCounts, AddrIndex, RandomIndex, IdsBelow, TriedSlots, NewIds, TriedIds, Structure, Placed;
    var e := s.tried[kb][kp];
    LeaveKeeps(s, kb, kp, {n});
    assert {n} + {e} == {n, e};
    StructureParts(Leave(s, kb, kp), {n, e});
  }

  /** The second stage: the occupant's cell of the new table has been emptied. */
  lemma ClearStage(s: Book, kb: nat, kp: nat, n: int)
    requires CanEvict(s, kb, kp, n)
    ensures RandomIndex(Leave(s, kb, kp).info, Leave(s, kb, kp).random)
    ensures NewSlots(Leave(s, kb, kp).hash, Leave(s, kb, kp).info, Leave(s, kb, kp).table)
    ensures var e := s.tried[kb][kp];
            var t1 := Leave(s, kb, kp);
            var b := HomeBucket(t1, e);
            var i := t1.hash.NewPos(t1.info[e].Service(), b);
            var t2 := ClearNew(t1, b, i);
            && t1.table[b][i] != n && t1.table[b][i] != e
            && Structure(t2, {n, e}) && SameOffset(t1, t2) && t2.table[b][i] ==
                  EMPTY && Shape(t2.table, NEW_BUCKET_COUNT)
            && t2.tried == t1.tried && t2.hash == s.hash && t2.lastGood == s.lastGood && t2.idCount == s.idCount
            && n in t2.info && t2.info[n] == s.info[n].(randomPos := t2.info[n].randomPos)
            && e in t2.info && t2.info[e] == t1.info[e].(randomPos := t2.info[e].randomPos)
  {
    hide NewSlots, RefCounts, AddrIndex, RandomIndex, IdsBelow, TriedSlots, NewIds, TriedIds, Structure, Placed;
    hide ClearNew, SameOffset;
    LeaveStage(s, kb, kp, n);
    var e := s.tried[kb][kp];
    var t1 := Leave(s, kb, kp);
    var b := HomeBucket(t1, e);
    var i := t1.hash.NewPos(t1.info[e].Service(), b);
    ClearNewSpares(t1, b, i, {n, e});
    StructureParts(ClearNew(t1, b, i), {n, e});
  }

  /** Moves the record in a filled tried cell back to its home bucket in the new table. */
  function Evict(s: Book, kb: nat, kp: nat, ghost n: int): Book
    requires Structure(s, {n}) && n in s.info && s.info[n].refCount == 0
    requires kb < TRIED_BUCKET_COUNT && kp < BUCKET_SIZE && s.tried[kb][kp] != EMPTY
  {
    hide NewSlots, RefCounts, AddrIndex, RandomIndex, NewIds, TriedIds, IdsBelow, Placed, TriedSlots, Structure;
    hide SameOffset, ClearNew;
    EvictCan(s, kb, kp, n);
    LeaveStage(s, kb, kp, n);
    ClearStage(s, kb, kp, n);
    var e := s.tried[kb][kp];
    var t1 := Leave(s, kb, kp);
    var b := HomeBucket(t1, e);
    var t2 := ClearNew(t1, b, t1.hash.NewPos(t1.info[e].Service(), b));
    Refer(t2, b, e).(nNew := t2.nNew + 1)
  }

  lemma EvictKeeps(s: Book, kb: nat, kp: nat, n: int)
    requires Structure(s, {n}) && n in s.info && s.info[n].refCount == 0
    requires kb < TRIED_BUCKET_COUNT && kp < BUCKET_SIZE && s.tried[kb][kp] != EMPTY
    ensures Shape(s.tried, TRIED_BUCKET_COUNT)
    ensures var t := Evict(s, kb, kp, n);
            && Structure(t, {n})
            && t.tried == SetCell(s.tried, kb, kp, EMPTY) && t.hash == s.hash && t.lastGood == s.lastGood
            && t.idCount == s.idCount
            && n in t.info && t.info[n] == s.info[n].(randomPos := t.info[n].randomPos)
            && t.nNew - |NewIds(t.info)| == s.nNew - |NewIds(s.info)|
            && t.nTried - |TriedIds(t.info)| == s.nTried - |TriedIds(s.info)|
  {
    hide NewSlots, RefCounts, AddrIndex, RandomIndex, IdsBelow, ClearNew, TriedSlots, Placed, Structure, NewIds;
    hide TriedIds;
    EvictCan(s, kb, kp, n);
    LeaveStage(s, kb, kp, n);
    ClearStage(s, kb, kp, n);
    var e := s.tried[kb][kp];
    var t1 := Leave(s, kb, kp);
    var b := HomeBucket(t1, e);
    var t2 := ClearNew(t1, b, t1.hash.NewPos(t1.info[e].Service(), b));
    ReferStructure(t2, b, e, {n, e});
    StructureIgnoresNew(Refer(t2, b, e), {n, e} - {e}, t2.nNew + 1);
    assert {n, e} - {e} == {n};
    TriedCounted(s.info, e);
  }

  lemma StructureIgnoresNew(s: Book, loose: set<int>, nNew: int)
    requires Structure(s, loose)
    ensures Structure(s.(nNew := nNew), loose)
  {
    hide NewSlots, RefCounts, TriedSlots, AddrIndex, RandomIndex, IdsBelow, Placed;
  }

  lemma TriedCounted(info: Infos, e: int)
    requires e in info && info[e].inTried
    ensures |NewIds(info) + {e}| == |NewIds(info)| + 1 && |TriedIds(info) - {e}| == |TriedIds(info)| - 1
  {
    assert e !in NewIds(info) && e in TriedIds(info);
  }

  /** The stages of an eviction, and what holds between them. */
  lemma EvictStages(s: Book, kb: nat, kp: nat, n: int)
    requires Structure(s, {n}) && n in s.info && s.info[n].refCount == 0
    requires kb < TRIED_BUCKET_COUNT && kp < BUCKET_SIZE && s.tried[kb][kp] != EMPTY
    ensures s.tried[kb][kp] in s.info && Shape(s.tried, TRIED_BUCKET_COUNT)
    ensures var e := s.tried[kb][kp];
            var t1 := Leave(s, kb, kp);
            && RandomIndex(t1.info, t1.random) && NewSlots(t1.hash, t1.info, t1.table)
            && RefCounts(t1.hash, t1.info, t1.table) && EMPTY !in t1.info
            && var b := HomeBucket(t1, e);
               var t2 := ClearNew(t1, b, t1.hash.NewPos(t1.info[e].Service(), b));
               && Shape(t2.table, NEW_BUCKET_COUNT) && e in t2.info && t2.info[e].refCount == 0
               && t2.info[e].Service() == t1.info[e].Service() && t2.hash == s.hash
               && t2.table[b][t1.hash.NewPos(t1.info[e].Service(), b)] == EMPTY
               && Evict(s, kb, kp, n) == Refer(t2, b, e).(nNew := t2.nNew + 1)
  {
    hide NewSlots, RefCounts, AddrIndex, RandomIndex, IdsBelow, ClearNew, TriedSlots, Placed, Structure, NewIds;
    hide TriedIds, SameOffset;
    EvictCan(s, kb, kp, n);
    LeaveStage(s, kb, kp, n);
    ClearStage(s, kb, kp, n);
  }

  /** A new record stripped of its references, before it enters the tried table. */
  function Freed(s: Book, n: int): (r: Book)
    requires Structure(s, {}) && n in s.info && !s.info[n].inTried
    ensures Structure(r, {n}) && Shape(r.tried, TRIED_BUCKET_COUNT)
    ensures r == s.(info := s.info[n := s.info[n].(refCount := 0)], table := r.table, nNew := s.nNew - 1)
    ensures NewIds(r.info) == NewIds(s.info) && TriedIds(r.info) == TriedIds(s.info)
  {
    hide NewSlots, RefCounts, AddrIndex, RandomIndex, NewIds, TriedIds, IdsBelow, TriedSlots, Placed, Structure;
    hide LostOnly, ReleaseAll;
    NowLoose(s, n);
    ReleaseAllDone(s, n);
    var r := ReleaseAll(s, n, NEW_BUCKET_COUNT);
    StructureIgnoresNew(r, {n}, s.nNew - 1);
    StructureParts(r, {n});
    r.(nNew := s.nNew - 1)
  }

  lemma NowLoose(s: Book, n: int)
    requires Structure(s, {}) && n in s.info && !s.info[n].inTried
    ensures Structure(s, {n})
  {
    hide NewSlots, RefCounts, AddrIndex, RandomIndex, IdsBelow, TriedSlots;
  }

  /** Moves a new record to the tried table, evicting whatever held its cell. */
  function MakeTried(s: Book, n: int): Book
    requires Structure(s, {}) && n in s.info && !s.info[n].inTried
  {
    hide NewSlots, RefCounts, AddrIndex, RandomIndex, NewIds, TriedIds, IdsBelow, TriedSlots, Placed, Structure;
    hide Freed, Evict;
    var r := Freed(s, n);
    var kb := s.hash.TriedBucket(s.info[n].Service());
    var kp := s.hash.TriedPos(s.info[n].Service());
    if r.tried[kb][kp] != EMPTY then
      EvictKeeps(r, kb, kp, n);
      Enter(Evict(r, kb, kp, n), n)
    else Enter(r, n)
  }

  lemma MakeTriedKeeps(s: Book, n: int)
    requires Consistent(s) && n in s.info && !s.info[n].inTried
    ensures var t := MakeTried(s, n);
            && Consistent(t) && t.lastGood == s.lastGood && t.idCount == s.idCount
            && n in t.info && t.info[n].inTried
            && t.info[n].address == s.info[n].address && t.info[n].lastSuccess == s.info[n].lastSuccess
  {
    hide NewSlots, RefCounts, AddrIndex, RandomIndex, IdsBelow, Evict, NewIds, TriedIds, TriedSlots, Placed;
    hide Structure, Freed;
    var r := Freed(s, n);
    var kb := s.hash.TriedBucket(s.info[n].Service());
    var kp := s.hash.TriedPos(s.info[n].Service());
    var u := r;
    if r.tried[kb][kp] != EMPTY {
      EvictKeeps(r, kb, kp, n);
      u := Evict(r, kb, kp, n);
    }
    EnterKeeps(u, n, {n});
    assert {n} - {n} == {};
  }

  /** What is remembered about anyone stays, and nobody but n becomes tried. */
  ghost predicate Carried(before: Infos, after: Infos, n: int)
  {
    && SameContents(before, after)
    && forall m :: m in after && after[m].inTried ==> m == n || before[m].inTried
  }

  lemma CarriedTrans(a: Infos, b: Infos, c: Infos, n: int)
    requires Carried(a, b, n) && Carried(b, c, n)
    ensures Carried(a, c, n)
  {
  }

  /** Rewriting only the placement of one record. */
  lemma CarriedUpdate(a: Infos, m: int, refCount: int, inTried: bool, n: int)
    requires m in a && (inTried ==> m == n || a[m].inTried)
    ensures Carried(a, a[m := a[m].(refCount := refCount, inTried := inTried)], n)
  {
  }

  /** The records that survive: all, or all but one new record with a single reference. */
  ghost predicate LostAtMost(before: Infos, after: Infos, n: int)
  {
    || after.Keys == before.Keys
    || exists d :: d in before && d != n && !before[d].inTried && before[d].refCount == 1 && after.Keys ==
        before.Keys - {d}
  }

  lemma EvictMoves(s: Book, kb: nat, kp: nat, n: int)
    requires Structure(s, {n}) && n in s.info && s.info[n].refCount == 0
    requires kb < TRIED_BUCKET_COUNT && kp < BUCKET_SIZE && s.tried[kb][kp] != EMPTY
    ensures Carried(s.info, Evict(s, kb, kp, n).info, n) && LostAtMost(s.info, Evict(s, kb, kp, n).info, n)
  {
    hide NewSlots, RefCounts, AddrIndex, RandomIndex, IdsBelow, ClearNew, SetCell, NewIds, TriedIds, TriedSlots;
    hide Placed, Structure, Carried;
    hide SameOffset, Evict, LostAtMost;
    EvictCan(s, kb, kp, n);
    LeaveStage(s, kb, kp, n);
    ClearStage(s, kb, kp, n);
    EvictStages(s, kb, kp, n);
    var e := s.tried[kb][kp];
    var t1 := Leave(s, kb, kp);
    var b := HomeBucket(t1, e);
    var i := t1.hash.NewPos(t1.info[e].Service(), b);
    var t2 := ClearNew(t1, b, i);
    ClearNewCarries(t1, b, i, n);
    CarriedUpdate(s.info, e, s.info[e].refCount, false, n);
    CarriedTrans(s.info, t1.info, t2.info, n);
    CarriedUpdate(t2.info, e, t2.info[e].refCount + 1, t2.info[e].inTried, n);
    CarriedTrans(s.info, t2.info, Evict(s, kb, kp, n).info, n);
    EvictLoses(s, t1, t2, b, i, n, e);
    SameKeysLost(s.info, t2.info, Evict(s, kb, kp, n).info, n);
  }

  /** Afterwards the evicted record stands in one cell of the new table, that of its address and of the source
      that first announced it. */
  lemma EvictHome(s: Book, kb: nat, kp: nat, n: int)
    requires Structure(s, {n}) && n in s.info && s.info[n].refCount == 0
    requires kb < TRIED_BUCKET_COUNT && kp < BUCKET_SIZE && s.tried[kb][kp] != EMPTY
    ensures var e := s.tried[kb][kp];
            var t := Evict(s, kb, kp, n);
            && e in s.info && e in t.info && !t.info[e].inTried && t.info[e].refCount == 1
            && var b := s.hash.NewBucket(s.info[e].Service(), s.info[e].source);
               Shape(t.table, NEW_BUCKET_COUNT) && t.table[b][s.hash.NewPos(s.info[e].Service(), b)] == e
  {
    hide NewSlots, RefCounts, AddrIndex, RandomIndex, IdsBelow, ClearNew, NewIds, TriedIds, TriedSlots;
    hide Placed, Structure, SameOffset, Evict;
    EvictCan(s, kb, kp, n);
    LeaveStage(s, kb, kp, n);
    ClearStage(s, kb, kp, n);
    EvictStages(s, kb, kp, n);
  }

  lemma SameKeysLost(before: Infos, mid: Infos, after: Infos, n: int)
    requires LostAtMost(before, mid, n) && after.Keys == mid.Keys
    ensures LostAtMost(before, after, n)
  {
  }

  lemma ClearNewCarries(s: Book, b: nat, i: nat, n: int)
    requires RandomIndex(s.info, s.random) && NewSlots(s.hash, s.info, s.table) && EMPTY !in s.info
    requires b < NEW_BUCKET_COUNT && i < BUCKET_SIZE
    ensures var t := ClearNew(s, b, i);
            var d := s.table[b][i];
            && Carried(s.info, t.info, n)
            && t.info.Keys == (if d != EMPTY && s.info[d].refCount == 1 then s.info.Keys - {d} else s.info.Keys)
  {
    hide RandomIndex, ClearNew, SetCell;
    ClearNewEffect(s, b, i);
  }

  lemma EvictLoses(s: Book, t1: Book, t2: Book, b: nat, i: nat, n: int, e: int)
    requires NewSlots(t1.hash, t1.info, t1.table) && e in s.info && s.info[e].refCount == 0
    requires e in t1.info && t1.info == s.info[e := t1.info[e]] && t1.info[e].refCount == 0 && t1.table == s.table
    requires b < NEW_BUCKET_COUNT && i < BUCKET_SIZE && e in t2.info
    requires var d := s.table[b][i];
             && d != n
             && t2.info.Keys == if d != EMPTY && t1.info[d].refCount == 1 then t1.info.Keys - {d} else t1.info.Keys
    ensures LostAtMost(s.info, t2.info, n)
  {
    assert t1.info.Keys == s.info.Keys;
  }

  lemma MakeTriedMoves(s: Book, n: int)
    requires Structure(s, {}) && n in s.info && !s.info[n].inTried
    ensures Carried(s.info, MakeTried(s, n).info, n) && LostAtMost(s.info, MakeTried(s, n).info, n)
  {
    hide NewSlots, RefCounts, AddrIndex, RandomIndex, IdsBelow, Evict, SetCell, NewIds, TriedIds, TriedSlots, Placed;
    hide Structure, Carried;
    hide Freed, LostAtMost;
    var r := Freed(s, n);
    var kb := s.hash.TriedBucket(s.info[n].Service());
    var kp := s.hash.TriedPos(s.info[n].Service());
    CarriedUpdate(s.info, n, 0, false, n);
    assert r.info.Keys == s.info.Keys;
    NothingLost(s.info, r.info, n);
    var u := r;
    if r.tried[kb][kp] != EMPTY {
      EvictKeeps(r, kb, kp, n);
      EvictMoves(r, kb, kp, n);
      u := Evict(r, kb, kp, n);
      CarriedTrans(s.info, r.info, u.info, n);
      LostFrom(s.info, r.info, u.info, n);
    }
    CarriedUpdate(u.info, n, u.info[n].refCount, true, n);
    CarriedTrans(s.info, u.info, MakeTried(s, n).info, n);
    SameKeysLost(s.info, u.info, MakeTried(s, n).info, n);
  }

  lemma NothingLost(before: Infos, after: Infos, n: int)
    requires after.Keys == before.Keys
    ensures LostAtMost(before, after, n)
  {
  }

  /** Only the count of n itself has changed in between. */
  lemma LostFrom(before: Infos, mid: Infos, after: Infos, n: int)
    requires n in before && n in mid && mid == before[n := mid[n]] && LostAtMost(mid, after, n)
    ensures LostAtMost(before, after, n)
  {
    assert mid.Keys == before.Keys;
  }
}
