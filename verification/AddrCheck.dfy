/** The debug routine that walks over the whole address manager, proved to return 0 exactly when the
    indexes it looks at agree. */
module AddrCheck {
  import opened AddrBook
  import opened AddrDisk
  import S = AddrSteps
  import R = AddrRuns
  import opened AddrManager

  /** What a lookup with default insertion yields for an address that is not indexed. */
  function Lookup(addr: map<NetAddr, int>, a: NetAddr): int { if a in addr then addr[a] else 0 }

  /** The tests made on a single record. */
  predicate RecordOk(info: Infos, addr: map<NetAddr, int>, random: seq<int>, n: int)
    requires n in info
  {
    var e := info[n];
    && (if e.inTried then e.lastSuccess != 0 && e.refCount == 0 else 1 <= e.refCount <= NEW_BUCKETS_PER_ADDRESS)
    && Lookup(addr, e.Net()) == n
    && 0 <= e.randomPos < |random| && random[e.randomPos] == n
    && e.lastTry >= 0 && e.lastSuccess >= 0
  }

  /** The code of the first test that a record does not pass, or 0. */
  function RecordCode(info: Infos, addr: map<NetAddr, int>, random: seq<int>, n: int): (code: int)
    requires n in info
    ensures code == 0 <==> RecordOk(info, addr, random, n)
    ensures var e := info[n];
      && (code == -1 ==> e.inTried && e.lastSuccess == 0) && (code == -2 ==> e.inTried && e.refCount != 0)
      && (code == -3 ==> !e.inTried && (e.refCount < 0 || e.refCount > 8))
      && (code == -4 ==> !e.inTried && e.refCount == 0)
      && (code == -5 ==> Lookup(addr, e.Net()) != n)
      && (code == -6 ==> e.lastTry < 0) && (code == -8 ==> e.lastSuccess < 0)
      && (code == -14 ==> e.randomPos < 0 || e.randomPos >= |random| || random[e.randomPos] != n)
  {
    var e := info[n];
    if e.inTried && e.lastSuccess == 0 then -1
    else if e.inTried && e.refCount != 0 then -2
    else if !e.inTried && !(0 <= e.refCount <= NEW_BUCKETS_PER_ADDRESS) then -3
    else if !e.inTried && e.refCount == 0 then -4
    else if Lookup(addr, e.Net()) != n then -5
    else if !(0 <= e.randomPos < |random| && random[e.randomPos] == n) then -14
    else if e.lastTry < 0 then -6
    else if e.lastSuccess < 0 then -8
    else 0
  }

  /** Everything the routine tests. */
  ghost predicate Checked(s: S.Book)
    requires Shape(s.table, NEW_BUCKET_COUNT)
  {
    && |s.random| == s.nTried + s.nNew
    && (forall n :: n in s.info ==> RecordOk(s.info, s.addr, s.random, n))
    && |TriedIds(s.info)| == s.nTried && |NewIds(s.info)| == s.nNew
    && TriedSlots(s.hash, s.info, s.tried)
    && NewSlots(s.hash, s.info, s.table)
    && CountsExact(s.hash, s.info, s.table)
  }

  ghost predicate CountsExact(h: Hashing, info: Infos, table: Table)
    requires Shape(table, NEW_BUCKET_COUNT)
  {
    forall n :: n in info && !info[n].inTried ==> info[n].refCount == |RefBuckets(h, table, info[n].Service(), n)|
  }

  // ----- what passing the routine means -----

  /** Ids stay below the counter, the address index has no entry without a record, and every record is
      listed in it, which the routine takes for granted of the record with id 0: the only parts of the
      invariant that the routine does not look at. */
  ghost predicate Unchecked(s: S.Book)
  {
    && IdsBelow(s.info, s.idCount)
    && (forall a :: a in s.addr ==> s.addr[a] in s.info && s.info[s.addr[a]].Net() == a)
    && (forall n :: n in s.info ==> s.info[n].Net() in s.addr)
  }

  lemma Member<T>(s: set<T>) returns (x: T)
    requires s != {}
    ensures x in s
  {
    x :| x in s;
  }

  lemma SetsEqual<T>(a: set<T>, b: set<T>)
    requires forall x :: x in a <==> x in b
    ensures a == b
  {
  }

  lemma {:induction false} IdsSplit(info: Infos)
    ensures |info.Keys| == |NewIds(info)| + |TriedIds(info)|
  {
    assert info.Keys == NewIds(info) + TriedIds(info) && NewIds(info) !! TriedIds(info);
  }

  lemma ImageSize(f: map<int, int>) returns (image: set<int>)
    requires forall x, y :: x in f && y in f && f[x] == f[y] ==> x == y
    ensures |image| == |f.Keys| && forall p :: p in image <==> exists x :: x in f && f[x] == p
    decreases |f.Keys|
  {
    if f.Keys == {} {
      image := {};
    } else {
      var keys := f.Keys;
      var x := Member(keys);
      var g := f - {x};
      assert g.Keys == f.Keys - {x};
      var rest := ImageSize(g);
      image := rest + {f[x]};
      assert f[x] !in rest;
      forall p ensures p in image <==> exists y :: y in f && f[y] == p {
        if p in rest { var y :| y in g && g[y] == p; assert y in f && f[y] == p; }
        if y :| y in f && f[y] == p { if y != x { assert y in g && g[y] == p; } }
      }
    }
  }

  /** As many positions as records, each record at its own: every position is taken. */
  lemma RandomFull(info: Infos, random: seq<int>)
    requires |random| == |info.Keys|
    requires forall n :: n in info ==> 0 <= info[n].randomPos < |random| && random[info[n].randomPos] == n
    ensures RandomIndex(info, random)
  {
    var f := map n | n in info :: info[n].randomPos;
    assert f.Keys == info.Keys;
    var image := ImageSize(f);
    var all := set p | p in Count(|random|);
    forall p ensures p in all <==> 0 <= p < |random| {
      if 0 <= p < |random| { assert Count(|random|)[p] == p; }
    }
    IntervalSize(0, |random|, all);
    assert image <= all;
    SubsetEqual(image, all);
    forall p | 0 <= p < |random| ensures random[p] in info && info[random[p]].randomPos == p {
      assert p in all;
      assert p in image;
      var n :| n in f && f[n] == p;
    }
  }

  lemma SubsetEqual(a: set<int>, b: set<int>)
    requires a <= b && |a| == |b|
    ensures a == b
  {
    assert b == a + (b - a);
    assert |b - a| == 0;
  }

  /** The routine and the invariant agree. */
  lemma ValidIffChecked(s: S.Book)
    requires Shape(s.table, NEW_BUCKET_COUNT) && EMPTY !in s.info
    ensures S.Valid(s) <==> Checked(s) && Unchecked(s)
  {
    if S.Valid(s) { ValidChecked(s); }
    if Checked(s) && Unchecked(s) { CheckedValid(s); }
  }

  lemma ValidChecked(s: S.Book)
    requires S.Valid(s)
    ensures Shape(s.table, NEW_BUCKET_COUNT) && Checked(s) && Unchecked(s)
  {
    hide RefBuckets;
    IdsSplit(s.info);
    R.RandomSize(s.info, s.random);
    forall n | n in s.info ensures RecordOk(s.info, s.addr, s.random, n) {
      if s.info[n].inTried { TriedUnreferenced(s.hash, s.info, s.table, n); }
    }
  }

  lemma CheckedValid(s: S.Book)
    requires Shape(s.table, NEW_BUCKET_COUNT) && EMPTY !in s.info && Checked(s) && Unchecked(s)
    ensures S.Valid(s)
  {
    hide RefBuckets, TriedSlots;
    IdsSplit(s.info);
    RandomFull(s.info, s.random);
    forall n | n in s.info
      ensures s.info[n].refCount == |RefBuckets(s.hash, s.table, s.info[n].Service(), n)|
      ensures s.info[n].refCount <= NEW_BUCKETS_PER_ADDRESS
    {
      assert RecordOk(s.info, s.addr, s.random, n);
      if s.info[n].inTried { TriedUnreferenced(s.hash, s.info, s.table, n); }
    }
    assert AddrIndex(s.info, s.addr);
    assert Placed(s.info, {}) && Times(s.info);
  }

  /** After every run from a newly constructed manager, with positive times, everything the routine
      tests holds. */
  lemma RunChecked(hash: Hashing, ops: seq<R.Op>)
    requires forall k :: 0 <= k < |ops| ==> R.Timely(ops[k])
    ensures S.Consistent(S.NewBook(hash))
    ensures var t := R.Run(S.NewBook(hash), ops); Shape(t.table, NEW_BUCKET_COUNT) && Checked(t) && Unchecked(t)
  {
    hide Checked, Unchecked, R.Run, S.Consistent;
    S.NewBookValid(hash);
    ValidConsistent(S.NewBook(hash));
    R.RunKeeps(S.NewBook(hash), ops);
    ValidChecked(R.Run(S.NewBook(hash), ops));
  }

  lemma ValidConsistent(s: S.Book)
    requires S.Valid(s)
    ensures S.Consistent(s)
  {
    hide S.Consistent;
  }

  // ----- the two walks over the tables -----

  /** Cell (c, j) comes before cell (b, i). */
  predicate Before(c: nat, j: nat, b: nat, i: nat) { c < b || (c == b && j < i) }

  ghost predicate TriedCell(h: Hashing, info: Infos, tried: Table, b: nat, i: nat)
    requires b < |tried| && i < |tried[b]|
  {
    tried[b][i] != EMPTY ==>
      && tried[b][i] in info && info[tried[b][i]].inTried
      && h.TriedBucket(info[tried[b][i]].Service()) == b && h.TriedPos(info[tried[b][i]].Service()) == i
  }

  /** Record n has been met in its own cell. */
  ghost predicate Met(h: Hashing, info: Infos, tried: Table, n: int, b: nat, i: nat)
    requires Shape(tried, TRIED_BUCKET_COUNT) && n in info
  {
    var c, j := h.TriedBucket(info[n].Service()), h.TriedPos(info[n].Service());
    Before(c, j, b, i) && tried[c][j] == n
  }

  /** The cells before (b, i) are right, and the set holds the tried records not met there. */
  ghost predicate TriedWalk(h: Hashing, info: Infos, tried: Table, left: set<int>, b: nat, i: nat)
  {
    && Shape(tried, TRIED_BUCKET_COUNT)
    && (forall c, j :: 0 <= c < TRIED_BUCKET_COUNT && 0 <= j < BUCKET_SIZE && Before(c, j, b, i) ==>
          TriedCell(h, info, tried, c, j))
    && (forall n :: n in left <==> n in info && info[n].inTried && !Met(h, info, tried, n, b, i))
  }

  lemma TriedStep(h: Hashing, info: Infos, tried: Table, left: set<int>, b: nat, i: nat)
    requires TriedWalk(h, info, tried, left, b, i) && b < TRIED_BUCKET_COUNT && i < BUCKET_SIZE && EMPTY !in info
    ensures var c := tried[b][i];
      && (c == EMPTY ==> TriedWalk(h, info, tried, left, b, i + 1))
      && (c != EMPTY && (c !in left || !TriedCell(h, info, tried, b, i)) ==> !TriedSlots(h, info, tried))
      && (c != EMPTY && c in left ==> c in info)
      && (c != EMPTY && c in left && TriedCell(h, info, tried, b, i) ==>
            TriedWalk(h, info, tried, left - {c}, b, i + 1))
  {
    hide Hashing.TriedBucket, Hashing.TriedPos;
    var c := tried[b][i];
    assert forall n :: n in info && n != c ==> (Met(h, info, tried, n, b, i) <==> Met(h, info, tried, n, b, i + 1));
  }

  lemma TriedRow(h: Hashing, info: Infos, tried: Table, left: set<int>, b: nat)
    requires TriedWalk(h, info, tried, left, b, BUCKET_SIZE)
    ensures TriedWalk(h, info, tried, left, b + 1, 0)
  {
  }

  lemma TriedDone(h: Hashing, info: Infos, tried: Table, left: set<int>)
    requires TriedWalk(h, info, tried, left, TRIED_BUCKET_COUNT, 0) && EMPTY !in info
    ensures left == {} <==> TriedSlots(h, info, tried)
  {
    forall n | n in info && info[n].inTried && TriedSlots(h, info, tried)
      ensures Met(h, info, tried, n, TRIED_BUCKET_COUNT, 0)
    {
    }
    if left != {} {
      var n := Member(left);
      assert !Met(h, info, tried, n, TRIED_BUCKET_COUNT, 0);
    }
    if left == {} {
      forall n | n in info && info[n].inTried
        ensures tried[h.TriedBucket(info[n].Service())][h.TriedPos(info[n].Service())] == n {
        assert n !in left;
      }
      forall b, i | 0 <= b < TRIED_BUCKET_COUNT && 0 <= i < BUCKET_SIZE && tried[b][i] != EMPTY
        ensures tried[b][i] in info && info[tried[b][i]].inTried
        ensures h.TriedBucket(info[tried[b][i]].Service()) == b && h.TriedPos(info[tried[b][i]].Service()) == i
      {
        assert TriedCell(h, info, tried, b, i);
      }
    }
  }

  ghost predicate NewCellOk(h: Hashing, info: Infos, table: Table, b: nat, i: nat)
    requires b < |table| && i < |table[b]|
  {
    table[b][i] != EMPTY ==>
      && table[b][i] in info && !info[table[b][i]].inTried
      && h.NewPos(info[table[b][i]].Service(), b) == i
  }

  ghost function Seen(h: Hashing, info: Infos, table: Table, n: int, b: nat, i: nat): nat
    requires Shape(table, NEW_BUCKET_COUNT) && n in info
  {
    |RefBuckets(h, Upto(table, b, i), info[n].Service(), n)|
  }

  /** The cells before (b, i) are right, and the map holds what is left of every reference count. */
  ghost predicate NewWalk(h: Hashing, info: Infos, table: Table, left: map<int, int>, b: nat, i: nat)
  {
    && Shape(table, NEW_BUCKET_COUNT)
    && (forall c, j :: 0 <= c < NEW_BUCKET_COUNT && 0 <= j < BUCKET_SIZE && Before(c, j, b, i) ==>
          NewCellOk(h, info, table, c, j))
    && (forall n :: n in left <==> n in info && !info[n].inTried && Seen(h, info, table, n, b, i) < info[n].refCount)
    && (forall n :: n in left ==> left[n] == info[n].refCount - Seen(h, info, table, n, b, i))
    && (forall n :: n in info && !info[n].inTried ==> Seen(h, info, table, n, b, i) <= info[n].refCount)
  }

  /** Counting down the reference count of the record in a cell. */
  function CountDown(left: map<int, int>, c: int): map<int, int>
    requires c in left
  {
    if left[c] - 1 == 0 then left - {c} else left[c := left[c] - 1]
  }

  lemma SeenStep(h: Hashing, info: Infos, table: Table, b: nat, i: nat)
    requires Shape(table, NEW_BUCKET_COUNT) && b < NEW_BUCKET_COUNT && i < BUCKET_SIZE && EMPTY !in info
    ensures var c := table[b][i];
      && (forall n :: n in info && n != c ==> Seen(h, info, table, n, b, i + 1) == Seen(h, info, table, n, b, i))
      && (c in info && NewCellOk(h, info, table, b, i) ==>
            Seen(h, info, table, c, b, i + 1) == Seen(h, info, table, c, b, i) + 1)
  {
    hide RefBuckets, Upto;
    var c := table[b][i];
    UptoNext(table, b, i);
    if c == EMPTY {
      SetSame(Upto(table, b, i), b, i);
    } else {
      forall n | n in info && n != c ensures Seen(h, info, table, n, b, i + 1) == Seen(h, info, table, n, b, i) {
        OtherCell(h, Upto(table, b, i), b, i, c, info[n].Service(), n);
      }
      if c in info && NewCellOk(h, info, table, b, i) { FillCellRefs(h, info, Upto(table, b, i), b, c); }
    }
  }

  lemma OtherCell(h: Hashing, part: Table, b: nat, i: nat, c: int, x: Service, n: int)
    requires Shape(part, NEW_BUCKET_COUNT) && b < NEW_BUCKET_COUNT && i < BUCKET_SIZE && part[b][i] == EMPTY
    requires n != c && n != EMPTY
    ensures RefBuckets(h, SetCell(part, b, i, c), x, n) == RefBuckets(h, part, x, n)
  {
  }

  lemma SeenAtMost(h: Hashing, info: Infos, table: Table, n: int, b: nat, i: nat)
    requires Shape(table, NEW_BUCKET_COUNT) && n in info && n != EMPTY
    ensures Seen(h, info, table, n, b, i) <= |RefBuckets(h, table, info[n].Service(), n)|
  {
    PartRefs(h, Upto(table, b, i), table, info[n].Service(), n);
  }

  lemma NewStep(h: Hashing, info: Infos, table: Table, left: map<int, int>, b: nat, i: nat)
    requires NewWalk(h, info, table, left, b, i) && b < NEW_BUCKET_COUNT && i < BUCKET_SIZE && EMPTY !in info
    ensures var c := table[b][i];
      && (c == EMPTY ==> NewWalk(h, info, table, left, b, i + 1))
      && (c != EMPTY && (c !in left || !NewCellOk(h, info, table, b, i)) ==>
            !(NewSlots(h, info, table) && CountsExact(h, info, table)))
      && (c != EMPTY && c in left ==> c in info)
      && (c != EMPTY && c in left && NewCellOk(h, info, table, b, i) ==>
            NewWalk(h, info, table, CountDown(left, c), b, i + 1))
  {
    hide Seen, RefBuckets, Hashing.NewPos;
    var c := table[b][i];
    SeenStep(h, info, table, b, i);
    if c in info { SeenAtMost(h, info, table, c, b, i + 1); }
  }

  lemma NewRow(h: Hashing, info: Infos, table: Table, left: map<int, int>, b: nat)
    requires NewWalk(h, info, table, left, b, BUCKET_SIZE)
    ensures NewWalk(h, info, table, left, b + 1, 0)
  {
    hide RefBuckets, Upto, NewCellOk;
    UptoEnds(table, b);
  }

  lemma NewDone(h: Hashing, info: Infos, table: Table, left: map<int, int>)
    requires NewWalk(h, info, table, left, NEW_BUCKET_COUNT, 0)
    ensures left.Keys == {} <==> NewSlots(h, info, table) && CountsExact(h, info, table)
  {
    hide RefBuckets, Upto;
    UptoEnds(table, 0);
    assert NewSlots(h, info, table) by {
      forall b, i | 0 <= b < NEW_BUCKET_COUNT && 0 <= i < BUCKET_SIZE && table[b][i] != EMPTY
        ensures table[b][i] in info && !info[table[b][i]].inTried && h.NewPos(info[table[b][i]].Service(), b) == i
      {
        assert NewCellOk(h, info, table, b, i);
      }
    }
    if left.Keys == {} {
      forall n | n in info && !info[n].inTried ensures info[n].refCount ==
          |RefBuckets(h, table, info[n].Service(), n)| {
        assert n !in left.Keys;
      }
    } else {
      var keys := left.Keys;
      var n := Member(keys);
      assert info[n].refCount != |RefBuckets(h, table, info[n].Service(), n)|;
    }
  }

  // ----- what the codes mean -----

  /** The record with the lowest id that fails a test fails this one. */
  ghost predicate RecordFault(code: int, info: Infos, addr: map<NetAddr, int>, random: seq<int>)
  {
    && code != 0
    && exists n :: n in info && RecordCode(info, addr, random, n) == code && EarlierPass(info, addr, random, n)
  }

  ghost predicate EarlierPass(info: Infos, addr: map<NetAddr, int>, random: seq<int>, n: int)
  {
    forall k :: k in info && k < n ==> RecordOk(info, addr, random, k)
  }

  /** A cell of the tried table whose entry is no tried record or has come before, or should be elsewhere. */
  ghost predicate TriedFaultAt(code: int, h: Hashing, info: Infos, tried: Table, b: nat, i: nat)
    requires b < |tried| && i < |tried[b]|
  {
    var c := tried[b][i];
    && c != EMPTY
    && (code == -11 ==> c !in info || !info[c].inTried || ComesBefore(tried, c, b, i))
    && (code == -17 ==> c in info && h.TriedBucket(info[c].Service()) != b)
    && (code == -18 ==> c in info && h.TriedPos(info[c].Service()) != i)
  }

  ghost predicate ComesBefore(tried: Table, c: int, b: nat, i: nat)
  {
    exists d, j :: 0 <= d < |tried| && 0 <= j < |tried[d]| && Before(d, j, b, i) && tried[d][j] == c
  }

  ghost predicate TriedFault(code: int, h: Hashing, info: Infos, tried: Table)
  {
    && code in {-11, -17, -18}
    && exists b: nat, i: nat :: b < |tried| && i < |tried[b]| && TriedFaultAt(code, h, info, tried, b, i)
  }

  /** A cell of the new table whose entry is no new record or has used up its count, or should be elsewhere. */
  ghost predicate NewFaultAt(code: int, h: Hashing, info: Infos, table: Table, b: nat, i: nat)
    requires Shape(table, NEW_BUCKET_COUNT) && b < NEW_BUCKET_COUNT && i < BUCKET_SIZE
  {
    var c := table[b][i];
    && c != EMPTY
    && (code == -12 ==> c !in info || info[c].inTried || Seen(h, info, table, c, b, i) == info[c].refCount)
    && (code == -19 ==> c in info && h.NewPos(info[c].Service(), b) != i)
  }

  ghost predicate NewFault(code: int, h: Hashing, info: Infos, table: Table)
    requires Shape(table, NEW_BUCKET_COUNT)
  {
    && code in {-12, -19}
    && exists b: nat, i: nat :: b < NEW_BUCKET_COUNT && i < BUCKET_SIZE && NewFaultAt(code, h, info, table, b, i)
  }

  /** A tried record that is not in its cell. */
  ghost predicate TriedMissing(h: Hashing, info: Infos, tried: Table)
    requires Shape(tried, TRIED_BUCKET_COUNT)
  {
    exists n :: n in info && info[n].inTried && !Met(h, info, tried, n, TRIED_BUCKET_COUNT, 0)
  }

  /** A new record with fewer cells than its count says. */
  ghost predicate NewMissing(h: Hashing, info: Infos, table: Table)
    requires Shape(table, NEW_BUCKET_COUNT)
  {
    exists n :: n in info && !info[n].inTried && |RefBuckets(h, table, info[n].Service(), n)| < info[n].refCount
  }

  /** What each code says about the manager. */
  ghost predicate Means(code: int, s: S.Book, keyNull: bool)
    requires Shape(s.table, NEW_BUCKET_COUNT) && Shape(s.tried, TRIED_BUCKET_COUNT)
  {
    match code
    case -7 => |s.random| != s.nTried + s.nNew
    case -9 => |TriedIds(s.info)| != s.nTried
    case -10 => |NewIds(s.info)| != s.nNew
    case -13 => TriedMissing(s.hash, s.info, s.tried)
    case -15 => NewMissing(s.hash, s.info, s.table)
    case -16 => keyNull
    case _ =>
      || RecordFault(code, s.info, s.addr, s.random)
      || TriedFault(code, s.hash, s.info, s.tried)
      || NewFault(code, s.hash, s.info, s.table)
  }

  // ----- the routine -----

  method CheckRecords(m: AddrMan) returns (r: int, setTried: set<int>, mapNew: map<int, int>)
    ensures r == 0 <==> forall n :: n in m.mapInfo ==> RecordOk(m.mapInfo, m.mapAddr, m.vRandom, n)
    ensures r == 0 ==> setTried == TriedIds(m.mapInfo) && mapNew.Keys == NewIds(m.mapInfo)
    ensures r == 0 ==> forall n :: n in mapNew ==> mapNew[n] == m.mapInfo[n].refCount
    ensures r != 0 ==> RecordFault(r, m.mapInfo, m.mapAddr, m.vRandom)
    ensures r in {0, -1, -2, -3, -4, -5, -14, -6, -8}
  {
    setTried, mapNew := {}, map[];
    var left := m.mapInfo.Keys;
    while left != {}
      invariant left <= m.mapInfo.Keys
      invariant forall n :: n in m.mapInfo && n !in left ==> RecordOk(m.mapInfo, m.mapAddr, m.vRandom, n)
      invariant forall n, k :: n in left && k in m.mapInfo && k !in left ==> k < n
      invariant forall n :: n in setTried <==> n in m.mapInfo && n !in left && m.mapInfo[n].inTried
      invariant forall n :: n in mapNew <==> n in m.mapInfo && n !in left && !m.mapInfo[n].inTried
      invariant forall n :: n in mapNew ==> mapNew[n] == m.mapInfo[n].refCount
      decreases |left|
    {
      ghost var least := Lowest(left);
      var n :| n in left && forall k :: k in left ==> n <= k;
      var info := m.mapInfo[n];
      ghost var code := RecordCode(m.mapInfo, m.mapAddr, m.vRandom, n);
      assert EarlierPass(m.mapInfo, m.mapAddr, m.vRandom, n);
      assert code != 0 ==> RecordFault(code, m.mapInfo, m.mapAddr, m.vRandom);
      if info.inTried {
        if info.lastSuccess == 0 { return -1, setTried, mapNew; }
        if info.refCount != 0 { return -2, setTried, mapNew; }
        setTried := setTried + {n};
      } else {
        if info.refCount < 0 || info.refCount > NEW_BUCKETS_PER_ADDRESS { return -3, setTried, mapNew; }
        if info.refCount == 0 { return -4, setTried, mapNew; }
        mapNew := mapNew[n := info.refCount];
      }
      if Lookup(m.mapAddr, info.Net()) != n { return -5, setTried, mapNew; }
      if info.randomPos < 0 || info.randomPos >= |m.vRandom| || m.vRandom[info.randomPos] != n {
        return -14, setTried, mapNew;
      }
      if info.lastTry < 0 { return -6, setTried, mapNew; }
      if info.lastSuccess < 0 { return -8, setTried, mapNew; }
      left := left - {n};
    }
    assert left == {};
    forall n ensures n in setTried <==> n in TriedIds(m.mapInfo) { }
    forall n ensures n in mapNew.Keys <==> n in NewIds(m.mapInfo) { }
    SetsEqual(setTried, TriedIds(m.mapInfo));
    SetsEqual(mapNew.Keys, NewIds(m.mapInfo));
    r := 0;
  }

  lemma {:induction false} Lowest(s: set<int>) returns (x: int)
    requires s != {}
    ensures x in s && forall k :: k in s ==> x <= k
    decreases |s|
  {
    var z := Member(s);
    var rest := s - {z};
    x := z;
    if rest != {} {
      var y := Lowest(rest);
      if y < z { x := y; }
    }
    assert forall k :: k in s ==> k == z || k in rest;
  }

  method CheckTried(m: AddrMan, all: set<int>) returns (r: int, setTried: set<int>)
    requires Shape(m.vvTried, TRIED_BUCKET_COUNT) && all == TriedIds(m.mapInfo) && EMPTY !in m.mapInfo
    ensures r == 0 && setTried == {} <==> TriedSlots(m.hash, m.mapInfo, m.vvTried)
    ensures r != 0 ==> TriedFault(r, m.hash, m.mapInfo, m.vvTried)
    ensures r == 0 && setTried != {} ==> TriedMissing(m.hash, m.mapInfo, m.vvTried)
  {
    hide TriedSlots, TriedWalk;
    setTried := all;
    TriedFirst(m.hash, m.mapInfo, m.vvTried);
    for n := 0 to TRIED_BUCKET_COUNT
      invariant TriedWalk(m.hash, m.mapInfo, m.vvTried, setTried, n, 0)
    {
      for i := 0 to BUCKET_SIZE
        invariant TriedWalk(m.hash, m.mapInfo, m.vvTried, setTried, n, i)
      {
        TriedStep(m.hash, m.mapInfo, m.vvTried, setTried, n, i);
        var c := m.vvTried[n][i];
        if c != EMPTY {
          if c !in setTried {
            TriedGone(m.hash, m.mapInfo, m.vvTried, setTried, n, i);
            return -11, setTried;
          }
          TriedLeft(m.hash, m.mapInfo, m.vvTried, setTried, n, i, c);
          if m.hash.TriedBucket(m.mapInfo[c].Service()) != n {
            assert TriedFaultAt(-17, m.hash, m.mapInfo, m.vvTried, n, i);
            return -17, setTried;
          }
          if m.hash.TriedPos(m.mapInfo[c].Service()) != i {
            assert TriedFaultAt(-18, m.hash, m.mapInfo, m.vvTried, n, i);
            return -18, setTried;
          }
          setTried := setTried - {c};
        }
      }
      TriedRow(m.hash, m.mapInfo, m.vvTried, setTried, n);
    }
    TriedDone(m.hash, m.mapInfo, m.vvTried, setTried);
    TriedRest(m.hash, m.mapInfo, m.vvTried, setTried);
    r := 0;
  }

  /** An entry that is not in the set any more. */
  lemma TriedGone(h: Hashing, info: Infos, tried: Table, left: set<int>, b: nat, i: nat)
    requires TriedWalk(h, info, tried, left, b, i) && b < TRIED_BUCKET_COUNT && i < BUCKET_SIZE
    requires tried[b][i] != EMPTY && tried[b][i] !in left
    ensures TriedFaultAt(-11, h, info, tried, b, i) && TriedFault(-11, h, info, tried)
  {
    var c := tried[b][i];
    if c in info && info[c].inTried {
      assert Met(h, info, tried, c, b, i);
      var d, j := h.TriedBucket(info[c].Service()), h.TriedPos(info[c].Service());
      assert Before(d, j, b, i) && tried[d][j] == c;
    }
    assert TriedFaultAt(-11, h, info, tried, b, i);
  }

  lemma TriedRest(h: Hashing, info: Infos, tried: Table, left: set<int>)
    requires TriedWalk(h, info, tried, left, TRIED_BUCKET_COUNT, 0)
    ensures left != {} ==> TriedMissing(h, info, tried)
  {
    if left != {} {
      var n := Member(left);
      assert !Met(h, info, tried, n, TRIED_BUCKET_COUNT, 0);
    }
  }

  lemma TriedFirst(h: Hashing, info: Infos, tried: Table)
    requires Shape(tried, TRIED_BUCKET_COUNT)
    ensures TriedWalk(h, info, tried, TriedIds(info), 0, 0)
  {
  }

  lemma TriedLeft(h: Hashing, info: Infos, tried: Table, left: set<int>, b: nat, i: nat, c: int)
    requires TriedWalk(h, info, tried, left, b, i) && c in left
    ensures c in info && info[c].inTried
  {
  }

  method CheckNew(m: AddrMan, counts: map<int, int>) returns (r: int, mapNew: map<int, int>)
    requires Shape(m.vvNew, NEW_BUCKET_COUNT) && EMPTY !in m.mapInfo && counts.Keys == NewIds(m.mapInfo)
    requires forall n :: n in counts ==> counts[n] == m.mapInfo[n].refCount >= 1
    ensures r == 0 && mapNew.Keys == {} <==>
      NewSlots(m.hash, m.mapInfo, m.vvNew) && CountsExact(m.hash, m.mapInfo, m.vvNew)
    ensures r != 0 ==> NewFault(r, m.hash, m.mapInfo, m.vvNew)
    ensures r == 0 && mapNew.Keys != {} ==> NewMissing(m.hash, m.mapInfo, m.vvNew)
  {
    hide NewSlots, CountsExact, NewWalk;
    mapNew := counts;
    NewFirst(m.hash, m.mapInfo, m.vvNew, counts);
    for n := 0 to NEW_BUCKET_COUNT
      invariant NewWalk(m.hash, m.mapInfo, m.vvNew, mapNew, n, 0)
    {
      for i := 0 to BUCKET_SIZE
        invariant NewWalk(m.hash, m.mapInfo, m.vvNew, mapNew, n, i)
      {
        NewStep(m.hash, m.mapInfo, m.vvNew, mapNew, n, i);
        var c := m.vvNew[n][i];
        if c != EMPTY {
          if c !in mapNew {
            NewGone(m.hash, m.mapInfo, m.vvNew, mapNew, n, i);
            return -12, mapNew;
          }
          NewLeft(m.hash, m.mapInfo, m.vvNew, mapNew, n, i, c);
          if m.hash.NewPos(m.mapInfo[c].Service(), n) != i {
            assert NewFaultAt(-19, m.hash, m.mapInfo, m.vvNew, n, i);
            return -19, mapNew;
          }
          ghost var before := mapNew;
          mapNew := mapNew[c := mapNew[c] - 1];
          if mapNew[c] == 0 { mapNew := mapNew - {c}; }
          assert mapNew == CountDown(before, c);
        }
      }
      NewRow(m.hash, m.mapInfo, m.vvNew, mapNew, n);
    }
    NewDone(m.hash, m.mapInfo, m.vvNew, mapNew);
    NewRest(m.hash, m.mapInfo, m.vvNew, mapNew);
    r := 0;
  }

  /** An entry whose count is used up. */
  lemma NewGone(h: Hashing, info: Infos, table: Table, left: map<int, int>, b: nat, i: nat)
    requires NewWalk(h, info, table, left, b, i) && b < NEW_BUCKET_COUNT && i < BUCKET_SIZE
    requires table[b][i] != EMPTY && table[b][i] !in left
    ensures NewFault(-12, h, info, table)
  {
    hide Seen;
    assert NewFaultAt(-12, h, info, table, b, i);
  }

  lemma NewRest(h: Hashing, info: Infos, table: Table, left: map<int, int>)
    requires NewWalk(h, info, table, left, NEW_BUCKET_COUNT, 0)
    ensures left.Keys != {} ==> NewMissing(h, info, table)
  {
    hide RefBuckets, Upto;
    UptoEnds(table, 0);
    if left.Keys != {} {
      var keys := left.Keys;
      var n := Member(keys);
      assert n in left;
    }
  }

  lemma NewFirst(h: Hashing, info: Infos, table: Table, counts: map<int, int>)
    requires Shape(table, NEW_BUCKET_COUNT) && EMPTY !in info && counts.Keys == NewIds(info)
    requires forall n :: n in counts ==> counts[n] == info[n].refCount >= 1
    ensures NewWalk(h, info, table, counts, 0, 0)
  {
    hide RefBuckets, Upto;
    UptoEnds(table, 0);
    forall n | n in info ensures Seen(h, info, table, n, 0, 0) == 0 { NoRefs(h, info[n].Service(), n); }
    assert forall n :: n in counts <==> n in counts.Keys;
  }

  lemma NewLeft(h: Hashing, info: Infos, table: Table, left: map<int, int>, b: nat, i: nat, c: int)
    requires NewWalk(h, info, table, left, b, i) && c in left
    ensures c in info && !info[c].inTried
  {
  }

  /** Returns 0 exactly when everything it tests holds, and otherwise a code that says what does not. */
  method Check(m: AddrMan, keyNull: bool) returns (r: int)
    requires Shape(m.vvNew, NEW_BUCKET_COUNT) && Shape(m.vvTried, TRIED_BUCKET_COUNT) && EMPTY !in m.mapInfo
    ensures r == 0 <==> Checked(m.State()) && !keyNull
    ensures r != 0 ==> Means(r, m.State(), keyNull)
  {
    hide NewSlots, CountsExact, TriedSlots, NewIds, TriedIds, RecordFault, TriedFaultAt, NewFaultAt, TriedMissing;
    hide NewMissing;
    if |m.vRandom| != m.nTried + m.nNew { return -7; }
    var recs, setTried, mapNew := CheckRecords(m);
    if recs != 0 { return recs; }
    CountsPositive(m.mapInfo, m.mapAddr, m.vRandom, mapNew);
    if |setTried| != m.nTried { return -9; }
    if |mapNew.Keys| != m.nNew { return -10; }
    var tried, triedLeft := CheckTried(m, setTried);
    if tried != 0 { return tried; }
    var news, newLeft := CheckNew(m, mapNew);
    if news != 0 { return news; }
    if |triedLeft| != 0 { return -13; }
    if |newLeft.Keys| != 0 { return -15; }
    if keyNull { return -16; }
    r := 0;
  }

  lemma CountsPositive(info: Infos, addr: map<NetAddr, int>, random: seq<int>, counts: map<int, int>)
    requires forall n :: n in info ==> RecordOk(info, addr, random, n)
    requires counts.Keys == NewIds(info) && forall n :: n in counts ==> counts[n] == info[n].refCount
    ensures forall n :: n in counts ==> n in info && counts[n] == info[n].refCount >= 1
  {
    forall n | n in counts ensures n in info && counts[n] == info[n].refCount >= 1 {
      assert n in counts.Keys;
      assert RecordOk(info, addr, random, n);
    }
  }
}
