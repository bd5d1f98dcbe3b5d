/** Saving the address manager and loading it into a newly constructed one: the loaded manager is
    the saved one up to a renaming of ids. */
module AddrDisk {
  import opened AddrBook
  import opened AddrSteps

  const KEY_SIZE: nat := 32
  const BUCKET_FLAG: nat := 0x4000_0000

  /** The part of a record that is written to disk. */
  datatype Saved = Saved(address: Address, source: NetAddr, lastSuccess: int, attempts: int)

  /** The values of a stream, in the order in which they are written. */
  datatype Stream = Stream(
    version: nat,
    keySize: nat,
    key: Hashing,
    nNew: int,
    nTried: int,
    buckets: nat,
    news: seq<Saved>,
    trieds: seq<Saved>,
    places: seq<seq<int>>)

  datatype Loaded = Loaded(book: Book) | Corrupt

  function Persist(e: AddrInfo): Saved { Saved(e.address, e.source, e.lastSuccess, e.attempts) }

  function Restored(p: Saved, pos: int): AddrInfo
  {
    AddrInfo(p.address, p.source, 0, 0, p.lastSuccess, p.attempts, 0, false, pos)
  }

  /** Exclusive or with the flag bit. */
  function Flip(x: nat): (r: nat)
    ensures x < BUCKET_FLAG ==> r == x + BUCKET_FLAG
    ensures BUCKET_FLAG <= x < 2 * BUCKET_FLAG ==> r == x - BUCKET_FLAG
  {
    if x / BUCKET_FLAG % 2 == 1 then x - BUCKET_FLAG else x + BUCKET_FLAG
  }

  // ----- saving -----

  /** The ids of a set that are below k, in ascending order. */
  function Order(ids: set<int>, k: nat): (r: seq<int>)
    ensures forall j :: 0 <= j < |r| ==> r[j] in ids && 0 <= r[j] < k
  {
    if k == 0 then [] else Order(ids, k - 1) + if k - 1 in ids then [k - 1] else []
  }

  function Refd(info: Infos): set<int> { set n | n in info && info[n].refCount != 0 }

  function Entries(info: Infos, order: seq<int>): (r: seq<Saved>)
    requires forall j :: 0 <= j < |order| ==> order[j] in info
    ensures |r| == |order| && forall j :: 0 <= j < |order| ==> r[j] == Persist(info[order[j]])
  {
    seq(|order|, j requires 0 <= j < |order| => Persist(info[order[j]]))
  }

  /** The consecutive number under which a record of the new table is written. */
  function Rank(info: Infos, n: int): nat
  {
    if n < 0 then 0 else |Order(Refd(info), n)|
  }

  /** The numbers of the records in the first i cells of a bucket. */
  function Places(info: Infos, cells: seq<int>, i: nat): seq<int>
    requires i <= |cells|
  {
    if i == 0 then [] else
      Places(info, cells, i - 1) + if cells[i - 1] != EMPTY then [Rank(info, cells[i - 1])] else []
  }

  function Save(s: Book): Stream
    requires s.idCount >= 0
  {
    Stream(1, KEY_SIZE, s.hash, s.nNew, s.nTried, Flip(NEW_BUCKET_COUNT),
           Entries(s.info, Order(Refd(s.info), s.idCount)),
           Entries(s.info, Order(TriedIds(s.info), s.idCount)),
           seq(|s.table|, b requires 0 <= b < |s.table| => Places(s.info, s.table[b], |s.table[b]|)))
  }

  // ----- loading -----

  /** While loading, the records are numbered consecutively and stand in that order. */
  ghost predicate Loading(s: Book, k: nat)
  {
    && |s.random| == k
    && (forall j :: 0 <= j < k ==> s.random[j] == j)
    && (forall n :: n in s.info <==> 0 <= n < k)
    && (forall n :: n in s.info ==> s.info[n].randomPos == n)
    && Shape(s.table, NEW_BUCKET_COUNT) && Shape(s.tried, TRIED_BUCKET_COUNT)
  }

  function NewEntry(s: Book, n: nat, e: Saved, fallback: bool): (t: Book)
    requires Loading(s, n)
    ensures Loading(t, n + 1) && t.nNew == s.nNew && t.nTried == s.nTried && t.idCount == s.idCount
  {
    var x := Restored(e, |s.random|);
    var b := s.hash.NewBucket(x.Service(), x.source);
    var i := s.hash.NewPos(x.Service(), b);
    var own := fallback && s.table[b][i] == EMPTY;
    s.(info := s.info[n := if own then x.(refCount := 1) else x],
       addr := s.addr[x.Net() := n],
       random := s.random + [n],
       table := if own then SetCell(s.table, b, i, n) else s.table)
  }

  function LoadNew(s: Book, es: seq<Saved>, fallback: bool): (t: Book)
    requires Loading(s, 0)
    ensures Loading(t, |es|) && t.nNew == s.nNew && t.nTried == s.nTried && t.idCount == s.idCount
  {
    if es == [] then s else
      var k := |es| - 1;
      NewEntry(LoadNew(s, es[..k], fallback), k, es[k], fallback)
  }

  function TriedEntry(s: Book, e: Saved): (t: Book)
    requires s.idCount >= 0 && Loading(s, s.idCount)
    ensures t.idCount >= 0 && Loading(t, t.idCount) && t.nNew == s.nNew && t.idCount >= s.idCount
  {
    var x := Restored(e, |s.random|).(inTried := true);
    var b, i := s.hash.TriedBucket(x.Service()), s.hash.TriedPos(x.Service());
    if s.tried[b][i] == EMPTY then
      s.(info := s.info[s.idCount := x],
         addr := s.addr[x.Net() := s.idCount],
         random := s.random + [s.idCount],
         tried := SetCell(s.tried, b, i, s.idCount),
         idCount := s.idCount + 1)
    else s.(nTried := s.nTried - 1)
  }

  function LoadTried(s: Book, es: seq<Saved>): (t: Book)
    requires s.idCount >= 0 && Loading(s, s.idCount)
    ensures t.idCount >= 0 && Loading(t, t.idCount) && t.nNew == s.nNew && t.idCount >= s.idCount
  {
    if es == [] then s else TriedEntry(LoadTried(s, es[..|es| - 1]), es[|es| - 1])
  }

  /** One position of the new table. */
  function Position(s: Book, b: nat, index: int, usable: bool): (t: Book)
    requires s.idCount >= 0 && Loading(s, s.idCount) && s.nNew <= s.idCount && (usable ==> b < NEW_BUCKET_COUNT)
    ensures Loading(t, s.idCount) && t.idCount == s.idCount && t.nNew == s.nNew
  {
    if 0 <= index < s.nNew then
      var i := s.hash.NewPos(s.info[index].Service(), b);
      if usable && s.table[b][i] == EMPTY && s.info[index].refCount < NEW_BUCKETS_PER_ADDRESS then
        s.(info := s.info[index := s.info[index].(refCount := s.info[index].refCount + 1)],
           table := SetCell(s.table, b, i, index))
      else s
    else s
  }

  function LoadBucket(s: Book, b: nat, indexes: seq<int>, usable: bool): (t: Book)
    requires s.idCount >= 0 && Loading(s, s.idCount) && s.nNew <= s.idCount && (usable ==> b < NEW_BUCKET_COUNT)
    ensures Loading(t, s.idCount) && t.idCount == s.idCount && t.nNew == s.nNew
  {
    if indexes == [] then s else
      Position(LoadBucket(s, b, indexes[..|indexes| - 1], usable), b, indexes[|indexes| - 1], usable)
  }

  function LoadBuckets(s: Book, places: seq<seq<int>>, usable: bool): (t: Book)
    requires s.idCount >= 0 && Loading(s, s.idCount) && s.nNew <= s.idCount && (usable ==> |places| <= NEW_BUCKET_COUNT)
    ensures Loading(t, s.idCount) && t.idCount == s.idCount && t.nNew == s.nNew
  {
    if places == [] then s else
      LoadBucket(LoadBuckets(s, places[..|places| - 1], usable), |places| - 1, places[|places| - 1], usable)
  }

  /** Forgets the records below k that ended up neither tried nor referenced. */
  function Prune(s: Book, k: nat): (t: Book)
    requires RandomIndex(s.info, s.random)
    ensures RandomIndex(t.info, t.random)
  {
    if k == 0 then s else
      var t := Prune(s, k - 1);
      if k - 1 in t.info && !t.info[k - 1].inTried && t.info[k - 1].refCount == 0 then
        ForgetKeepsRandom(t, k - 1);
        Forget(t, k - 1)
      else t
  }

  /** The records, before the positions of the new table are read. */
  function LoadEntries(st: Stream, usable: bool): (t: Book)
    requires |st.news| == st.nNew
    ensures t.idCount >= 0 && Loading(t, t.idCount) && t.nNew == st.nNew <= t.idCount
  {
    var s0 := NewBook(st.key).(nNew := st.nNew, nTried := st.nTried);
    var s1 := LoadNew(s0, st.news, !usable);
    LoadTried(s1.(idCount := st.nNew), st.trieds)
  }

  function Load(st: Stream): Loaded
  {
    hide LoadEntries, LoadBuckets;
    var buckets := if st.version != 0 then Flip(st.buckets) else st.buckets;
    var usable := st.version == 1 && buckets == NEW_BUCKET_COUNT;
    if st.keySize != KEY_SIZE
      || st.nNew > NEW_BUCKET_COUNT * BUCKET_SIZE
      || st.nTried > TRIED_BUCKET_COUNT * BUCKET_SIZE
      || |st.news| != st.nNew || |st.trieds| != st.nTried || |st.places| != buckets
    then Corrupt
    else
      var s3 := LoadBuckets(LoadEntries(st, usable), st.places, usable);
      Loaded(Prune(s3, s3.idCount))
  }

  // ----- the loaded manager, directly -----

  /** Where n stands in a list without repetitions, or -1. */
  function Place(ids: seq<int>, n: int): (j: int)
    ensures -1 <= j < |ids| && (j >= 0 ==> ids[j] == n) && (j == -1 ==> n !in ids)
  {
    if ids == [] then -1
    else if ids[|ids| - 1] == n then |ids| - 1
    else Place(ids[..|ids| - 1], n)
  }

  /** ids lists every record of s once, the new ones before the tried ones. */
  ghost predicate Listing(s: Book, ids: seq<int>)
  {
    && 0 <= s.nNew <= |ids| == s.nNew + s.nTried
    && (forall j :: 0 <= j < |ids| ==>
          ids[j] in s.info && Place(ids, ids[j]) == j && (s.info[ids[j]].inTried <==> j >= s.nNew))
    && (forall n :: n in s.info ==> Place(ids, n) >= 0)
  }

  function Kept(e: AddrInfo, refs: nat, pos: int): AddrInfo
  {
    AddrInfo(e.address, e.source, 0, 0, e.lastSuccess, e.attempts, refs, e.inTried, pos)
  }

  /** A table with every id renamed to its place, if that is below k. */
  ghost function Renamed(ids: seq<int>, t: Table, k: nat): (r: Table)
    ensures |r| == |t| && forall b :: 0 <= b < |t| ==> |r[b]| == |t[b]|
    ensures forall b, i :: 0 <= b < |t| && 0 <= i < |t[b]| ==> r[b][i] == CellName(ids, t[b][i], k)
  {
    seq(|t|, b requires 0 <= b < |t| =>
      seq(|t[b]|, i requires 0 <= i < |t[b]| => CellName(ids, t[b][i], k)))
  }

  ghost function CellName(ids: seq<int>, n: int, k: nat): int
  {
    if n != EMPTY && 0 <= Place(ids, n) < k then Place(ids, n) else EMPTY
  }

  /** The records after the first k have been loaded and the cells of part have been entered. */
  ghost function Records(s: Book, ids: seq<int>, k: nat, part: Table): (r: Infos)
    requires Listing(s, ids) && k <= |ids| && Shape(part, NEW_BUCKET_COUNT)
  {
    map j: int | 0 <= j < k :: Kept(s.info[ids[j]], |RefBuckets(s.hash, part, s.info[ids[j]].Service(), ids[j])|, j)
  }

  ghost function Addresses(s: Book, ids: seq<int>, k: nat): map<NetAddr, int>
    requires Listing(s, ids)
  {
    map a | a in s.addr && Place(ids, s.addr[a]) < k :: Place(ids, s.addr[a])
  }

  function Count(k: nat): (r: seq<int>)
    ensures |r| == k && forall j :: 0 <= j < k ==> r[j] == j
  {
    seq(k, j => j)
  }

  ghost function Target(s: Book, ids: seq<int>, k: nat, part: Table, idCount: int): Book
    requires Listing(s, ids) && k <= |ids| && Shape(part, NEW_BUCKET_COUNT)
  {
    Book(s.hash, idCount, Records(s, ids, k, part), Addresses(s, ids, k), Count(k),
         s.nTried, Renamed(ids, s.tried, k), s.nNew, Renamed(ids, part, |ids|), 1)
  }

  lemma TargetLoading(s: Book, ids: seq<int>, k: nat, part: Table, idCount: int)
    requires Listing(s, ids) && k <= |ids| && Shape(part, NEW_BUCKET_COUNT) && Shape(s.tried, TRIED_BUCKET_COUNT)
    ensures Loading(Target(s, ids, k, part, idCount), k)
  {
  }

  lemma NoRefs(h: Hashing, x: Service, n: int)
    requires n != EMPTY
    ensures RefBuckets(h, EmptyTable(NEW_BUCKET_COUNT), x, n) == {}
  {
  }

  /** Entering record k extends the list of loaded records. */
  lemma RecordsNext(s: Book, ids: seq<int>, k: nat)
    requires Listing(s, ids) && k < |ids| && EMPTY !in s.info
    ensures var none := EmptyTable(NEW_BUCKET_COUNT);
      Records(s, ids, k + 1, none) == Records(s, ids, k, none)[k := Kept(s.info[ids[k]], 0, k)]
  {
    NoRefs(s.hash, s.info[ids[k]].Service(), ids[k]);
  }

  lemma AddressesNext(s: Book, ids: seq<int>, k: nat)
    requires Listing(s, ids) && k < |ids| && AddrIndex(s.info, s.addr)
    ensures Addresses(s, ids, k + 1) == Addresses(s, ids, k)[s.info[ids[k]].Net() := k]
  {
  }

  lemma CountNext(k: nat)
    ensures Count(k + 1) == Count(k) + [k]
  {
  }

  /** New records leave the tried table alone. */
  lemma TriedLater(s: Book, ids: seq<int>, k: nat)
    requires Listing(s, ids) && k < s.nNew && TriedSlots(s.hash, s.info, s.tried)
    ensures Renamed(ids, s.tried, k + 1) == Renamed(ids, s.tried, k)
  {
    hide Place;
    var x, y := Renamed(ids, s.tried, k + 1), Renamed(ids, s.tried, k);
    forall b | 0 <= b < |x| ensures x[b] == y[b] {
      forall i | 0 <= i < |x[b]| ensures x[b][i] == y[b][i] {
        var c := s.tried[b][i];
        if c != EMPTY { assert Place(ids, c) >= s.nNew; }
      }
    }
  }

  lemma NewStage(s: Book, ids: seq<int>, k: nat)
    requires Structure(s, {}) && Listing(s, ids) && k < s.nNew
    ensures var none := EmptyTable(NEW_BUCKET_COUNT);
      var t := Target(s, ids, k, none, 0);
      Loading(t, k) && NewEntry(t, k, Persist(s.info[ids[k]]), false) == Target(s, ids, k + 1, none, 0)
  {
    hide Renamed, Addresses, Records, Place, Structure, EmptyTable;
    StructureParts(s, {});
    TargetLoading(s, ids, k, EmptyTable(NEW_BUCKET_COUNT), 0);
    RecordsNext(s, ids, k);
    AddressesNext(s, ids, k);
    CountNext(k);
    TriedLater(s, ids, k);
  }

  /** A tried record takes exactly its own cell. */
  lemma TriedNext(s: Book, ids: seq<int>, k: nat)
    requires Listing(s, ids) && s.nNew <= k < |ids| && TriedSlots(s.hash, s.info, s.tried) && EMPTY !in s.info
    ensures var x := s.info[ids[k]].Service();
      var b, i := s.hash.TriedBucket(x), s.hash.TriedPos(x);
      && Renamed(ids, s.tried, k)[b][i] == EMPTY
      && Renamed(ids, s.tried, k + 1) == SetCell(Renamed(ids, s.tried, k), b, i, k)
  {
    hide Place;
    var n := ids[k];
    var x := s.info[n].Service();
    var b0, i0 := s.hash.TriedBucket(x), s.hash.TriedPos(x);
    assert s.tried[b0][i0] == n;
    var before, after := Renamed(ids, s.tried, k), Renamed(ids, s.tried, k + 1);
    var set1 := SetCell(before, b0, i0, k);
    forall b | 0 <= b < |after| ensures after[b] == set1[b] {
      forall i | 0 <= i < |after[b]| ensures after[b][i] == set1[b][i] {
        var c := s.tried[b][i];
        if c != EMPTY { assert c in s.info && Place(ids, c) >= 0 && (c != n ==> Place(ids, c) != k); }
        if c == n && n != EMPTY { assert b == b0 && i == i0; }
        assert before[b][i] == CellName(ids, c, k) && after[b][i] == CellName(ids, c, k + 1);
      }
    }
  }

  lemma TriedStage(s: Book, ids: seq<int>, k: nat)
    requires Structure(s, {}) && Listing(s, ids) && s.nNew <= k < |ids|
    ensures var none := EmptyTable(NEW_BUCKET_COUNT);
      var t := Target(s, ids, k, none, k);
      Loading(t, k) && TriedEntry(t, Persist(s.info[ids[k]])) == Target(s, ids, k + 1, none, k + 1)
  {
    hide Renamed, Addresses, Records, Place, Structure, EmptyTable;
    StructureParts(s, {});
    TargetLoading(s, ids, k, EmptyTable(NEW_BUCKET_COUNT), k);
    RecordsNext(s, ids, k);
    AddressesNext(s, ids, k);
    CountNext(k);
    TriedNext(s, ids, k);
  }

  // ----- the positions of the new table -----

  /** Some of the cells of a table. */
  ghost predicate Part(part: Table, table: Table)
  {
    && Shape(part, NEW_BUCKET_COUNT) && Shape(table, NEW_BUCKET_COUNT)
    && forall b, i :: 0 <= b < NEW_BUCKET_COUNT && 0 <= i < BUCKET_SIZE ==>
          part[b][i] == EMPTY || part[b][i] == table[b][i]
  }

  lemma PartRefs(h: Hashing, part: Table, table: Table, x: Service, n: int)
    requires Part(part, table) && n != EMPTY
    ensures |RefBuckets(h, part, x, n)| <= |RefBuckets(h, table, x, n)|
  {
    var p, t := RefBuckets(h, part, x, n), RefBuckets(h, table, x, n);
    assert p <= t;
    SubsetSize(p, t);
  }

  lemma {:induction false} SubsetSize<T>(a: set<T>, b: set<T>)
    requires a <= b
    ensures |a| <= |b|
  {
    assert b == a + (b - a);
  }

  lemma RecordsRefer(s: Book, ids: seq<int>, part: Table, b: nat, i: nat, n: int)
    requires Listing(s, ids) && Shape(part, NEW_BUCKET_COUNT) && n in s.info && EMPTY !in s.info && b < NEW_BUCKET_COUNT
    requires i < BUCKET_SIZE && i == s.hash.NewPos(s.info[n].Service(), b) && part[b][i] == EMPTY
    ensures var j := Place(ids, n);
      var r := Records(s, ids, |ids|, part);
      j in r && Records(s, ids, |ids|, SetCell(part, b, i, n)) == r[j := r[j].(refCount := r[j].refCount + 1)]
  {
    hide Place, RefBuckets;
    FillCellRefs(s.hash, s.info, part, b, n);
    var next := SetCell(part, b, s.hash.NewPos(s.info[n].Service(), b), n);
    var j, r, u := Place(ids, n), Records(s, ids, |ids|, part), Records(s, ids, |ids|, next);
    assert ids[j] == n;
    assert forall k :: 0 <= k < |ids| && k != j ==> ids[k] in s.info && ids[k] != n;
  }

  lemma RenamedRefer(s: Book, ids: seq<int>, part: Table, b: nat, i: nat, n: int)
    requires Listing(s, ids) && Shape(part, NEW_BUCKET_COUNT) && n in s.info && EMPTY !in s.info
    requires b < NEW_BUCKET_COUNT && i < BUCKET_SIZE
    ensures Renamed(ids, SetCell(part, b, i, n), |ids|) == SetCell(Renamed(ids, part, |ids|), b, i, Place(ids, n))
  {
    hide Place;
    var x, y := Renamed(ids, SetCell(part, b, i, n), |ids|), SetCell(Renamed(ids, part, |ids|), b, i, Place(ids, n));
    forall c | 0 <= c < |x| ensures x[c] == y[c] {
      assert |x[c]| == |y[c]|;
      forall j | 0 <= j < |x[c]| ensures x[c][j] == y[c][j] { }
    }
  }

  lemma PositionStage(s: Book, ids: seq<int>, part: Table, b: nat, i: nat)
    requires Structure(s, {}) && Listing(s, ids) && Part(part, s.table) && b < NEW_BUCKET_COUNT && i < BUCKET_SIZE
    requires s.table[b][i] != EMPTY && part[b][i] == EMPTY
    ensures EntersAt(s, ids, part, b, i, SetCell(part, b, i, s.table[b][i]))
  {
    hide Renamed, Addresses, Records, Place, Structure, RefBuckets, Listing, Part, Shape, NewSlots, RefCounts;
    hide TriedSlots, AddrIndex;
    hide RandomIndex, Placed, Loading, Position, SetCell, Count;
    StructureParts(s, {});
    var n := s.table[b][i];
    PartNext(part, s.table, b, i);
    var next := SetCell(part, b, i, n);
    NewCell(s, ids, b, i);
    TargetLoading(s, ids, |ids|, part, |ids|);
    RoomForRef(s, ids, part, b, i);
    RecordsRefer(s, ids, part, b, i, n);
    RenamedRefer(s, ids, part, b, i, n);
    RenamedEmpty(ids, part, b, i);
    var t, u, j := Target(s, ids, |ids|, part, |ids|), Target(s, ids, |ids|, next, |ids|), Place(ids, n);
    PositionIs(t, b, i, j);
    assert u == t.(info := u.info, table := u.table);
  }

  ghost predicate EntersAt(s: Book, ids: seq<int>, part: Table, b: nat, i: nat, next: Table)
    requires b < NEW_BUCKET_COUNT && i < BUCKET_SIZE
  {
    && Listing(s, ids) && Part(part, s.table) && Part(next, s.table)
    && var t := Target(s, ids, |ids|, part, |ids|);
      && Loading(t, |ids|)
      && Position(t, b, Place(ids, s.table[b][i]), true) == Target(s, ids, |ids|, next, |ids|)
  }

  lemma PositionIs(t: Book, b: nat, i: nat, j: int)
    requires t.idCount >= 0 && Loading(t, t.idCount) && 0 <= j < t.nNew <= t.idCount && j in t.info
    requires b < NEW_BUCKET_COUNT
    requires i < BUCKET_SIZE && t.hash.NewPos(t.info[j].Service(), b) == i
    requires t.table[b][i] == EMPTY && t.info[j].refCount < NEW_BUCKETS_PER_ADDRESS
    ensures Position(t, b, j, true) ==
      t.(info := t.info[j := t.info[j].(refCount := t.info[j].refCount + 1)], table := SetCell(t.table, b, i, j))
  {
    hide SetCell;
  }

  lemma PartNext(part: Table, table: Table, b: nat, i: nat)
    requires Part(part, table) && b < NEW_BUCKET_COUNT && i < BUCKET_SIZE
    ensures Shape(part, NEW_BUCKET_COUNT) && b < |part| && i < |part[b]|
    ensures Part(SetCell(part, b, i, table[b][i]), table)
  {
  }

  lemma NewCell(s: Book, ids: seq<int>, b: nat, i: nat)
    requires Listing(s, ids) && NewSlots(s.hash, s.info, s.table) && b < NEW_BUCKET_COUNT && i < BUCKET_SIZE
    requires s.table[b][i] != EMPTY
    ensures var n := s.table[b][i];
      && n in s.info && !s.info[n].inTried && s.hash.NewPos(s.info[n].Service(), b) == i
      && 0 <= Place(ids, n) < s.nNew && s.nNew <= |ids|
  {
    hide Place;
  }

  lemma RoomForRef(s: Book, ids: seq<int>, part: Table, b: nat, i: nat)
    requires Listing(s, ids) && Part(part, s.table) && b < NEW_BUCKET_COUNT && i < BUCKET_SIZE && EMPTY !in s.info
    requires NewSlots(s.hash, s.info, s.table) && RefCounts(s.hash, s.info, s.table)
    requires s.table[b][i] != EMPTY && part[b][i] == EMPTY
    ensures var r, j := Records(s, ids, |ids|, part), Place(ids, s.table[b][i]);
      j in r && r[j].refCount < NEW_BUCKETS_PER_ADDRESS && r[j].Service() == s.info[s.table[b][i]].Service()
  {
    hide Place, RefBuckets;
    var n := s.table[b][i];
    NewCell(s, ids, b, i);
    PartNext(part, s.table, b, i);
    FillCellRefs(s.hash, s.info, part, b, n);
    PartRefs(s.hash, SetCell(part, b, i, n), s.table, s.info[n].Service(), n);
  }

  lemma RenamedEmpty(ids: seq<int>, part: Table, b: nat, i: nat)
    requires b < |part| && i < |part[b]| && part[b][i] == EMPTY
    ensures Renamed(ids, part, |ids|)[b][i] == EMPTY
  {
  }

  /** The cells before cell i of bucket b, in the order in which they are written. */
  ghost function Upto(table: Table, b: nat, i: nat): (r: Table)
    ensures |r| == |table| && forall c :: 0 <= c < |table| ==> |r[c]| == |table[c]|
    ensures forall c, j :: 0 <= c < |table| && 0 <= j < |table[c]| ==>
              r[c][j] == if c < b || (c == b && j < i) then table[c][j] else EMPTY
  {
    seq(|table|, c requires 0 <= c < |table| =>
      seq(|table[c]|, j requires 0 <= j < |table[c]| => if c < b || (c == b && j < i) then table[c][j] else EMPTY))
  }

  lemma UptoNext(table: Table, b: nat, i: nat)
    requires Shape(table, NEW_BUCKET_COUNT) && b < NEW_BUCKET_COUNT && i < BUCKET_SIZE
    ensures Part(Upto(table, b, i), table) && Upto(table, b, i)[b][i] == EMPTY
    ensures Upto(table, b, i + 1) == SetCell(Upto(table, b, i), b, i, table[b][i])
  {
    var x, y := Upto(table, b, i + 1), SetCell(Upto(table, b, i), b, i, table[b][i]);
    forall c | 0 <= c < |x| ensures x[c] == y[c] {
      assert |x[c]| == |y[c]|;
      forall j | 0 <= j < |x[c]| ensures x[c][j] == y[c][j] { }
    }
  }

  lemma SetSame(t: Table, b: nat, i: nat)
    requires b < |t| && i < |t[b]|
    ensures SetCell(t, b, i, t[b][i]) == t
  {
    assert t[b][i := t[b][i]] == t[b];
  }

  lemma UptoEnds(table: Table, b: nat)
    requires Shape(table, NEW_BUCKET_COUNT)
    ensures Upto(table, b, BUCKET_SIZE) == Upto(table, b + 1, 0)
    ensures Upto(table, 0, 0) == EmptyTable(NEW_BUCKET_COUNT)
    ensures Upto(table, NEW_BUCKET_COUNT, 0) == table
  {
    TablesEqual(Upto(table, b, BUCKET_SIZE), Upto(table, b + 1, 0));
    TablesEqual(Upto(table, 0, 0), EmptyTable(NEW_BUCKET_COUNT));
    TablesEqual(Upto(table, NEW_BUCKET_COUNT, 0), table);
  }

  lemma TablesEqual(x: Table, y: Table)
    requires Shape(x, NEW_BUCKET_COUNT) && Shape(y, NEW_BUCKET_COUNT)
    requires forall b, i :: 0 <= b < NEW_BUCKET_COUNT && 0 <= i < BUCKET_SIZE ==> x[b][i] == y[b][i]
    ensures x == y
  {
    forall b | 0 <= b < |x| ensures x[b] == y[b] {
      assert |x[b]| == |y[b]|;
    }
  }

  /** New records are written under their place in the list. */
  ghost predicate Ranked(s: Book, ids: seq<int>)
  {
    forall n :: n in s.info && !s.info[n].inTried ==> Rank(s.info, n) == Place(ids, n)
  }

  lemma {:induction false} BucketStage(s: Book, ids: seq<int>, b: nat, i: nat)
    requires Structure(s, {}) && Listing(s, ids) && Ranked(s, ids) && b < NEW_BUCKET_COUNT && i <= BUCKET_SIZE
    requires Shape(s.table, NEW_BUCKET_COUNT)
    ensures var t := Target(s, ids, |ids|, Upto(s.table, b, 0), |ids|);
      && Loading(t, |ids|)
      && LoadBucket(t, b, Places(s.info, s.table[b], i), true) == Target(s, ids, |ids|, Upto(s.table, b, i), |ids|)
    decreases i
  {
    hide Target, Upto, Place, Structure, Rank, Position;
    StructureParts(s, {});
    TargetLoading(s, ids, |ids|, Upto(s.table, b, 0), |ids|);
    TargetCounts(s, ids, Upto(s.table, b, 0));
    if i > 0 {
      var k := i - 1;
      BucketStage(s, ids, b, k);
      UptoNext(s.table, b, k);
      var n, front := s.table[b][k], Places(s.info, s.table[b], k);
      if n == EMPTY {
        SetSame(Upto(s.table, b, k), b, k);
        assert Places(s.info, s.table[b], i) == front;
      } else {
        PositionStage(s, ids, Upto(s.table, b, k), b, k);
        assert (front + [Rank(s.info, n)])[..|front|] == front;
        assert Rank(s.info, n) == Place(ids, n);
      }
    }
  }

  lemma TargetCounts(s: Book, ids: seq<int>, part: Table)
    requires Listing(s, ids) && Shape(part, NEW_BUCKET_COUNT)
    ensures var t := Target(s, ids, |ids|, part, |ids|); t.idCount == |ids| && t.nNew == s.nNew <= |ids|
  {
  }

  lemma {:induction false} BucketsStage(s: Book, ids: seq<int>, places: seq<seq<int>>)
    requires Structure(s, {}) && Listing(s, ids) && Ranked(s, ids)
    requires Shape(s.table, NEW_BUCKET_COUNT) && |places| <= NEW_BUCKET_COUNT
    requires forall b :: 0 <= b < |places| ==> places[b] == Places(s.info, s.table[b], BUCKET_SIZE)
    ensures var t := Target(s, ids, |ids|, EmptyTable(NEW_BUCKET_COUNT), |ids|);
      && Loading(t, |ids|) && t.idCount == |ids| && t.nNew <= |ids|
      && LoadBuckets(t, places, true) == Target(s, ids, |ids|, Upto(s.table, |places|, 0), |ids|)
    decreases |places|
  {
    hide Target, Upto, Place, Structure, Rank, Position, LoadBucket, Places, EmptyTable;
    StructureParts(s, {});
    TargetLoading(s, ids, |ids|, EmptyTable(NEW_BUCKET_COUNT), |ids|);
    TargetCounts(s, ids, EmptyTable(NEW_BUCKET_COUNT));
    UptoEnds(s.table, 0);
    if places != [] {
      var b := |places| - 1;
      BucketsStage(s, ids, places[..b]);
      BucketStage(s, ids, b, BUCKET_SIZE);
      UptoEnds(s.table, b);
    }
  }

  // ----- the order in which records are written -----

  ghost predicate Distinct(xs: seq<int>)
  {
    forall i, j :: 0 <= i < j < |xs| ==> xs[i] != xs[j]
  }

  lemma {:induction false} OrderDistinct(ids: set<int>, k: nat)
    ensures Distinct(Order(ids, k))
    decreases k
  {
    if k > 0 { OrderDistinct(ids, k - 1); }
  }

  /** A member stands behind the members below it. */
  lemma {:induction false} OrderRank(ids: set<int>, n: nat, k: nat)
    requires n in ids && n < k
    ensures |Order(ids, n)| < |Order(ids, k)| && Order(ids, k)[|Order(ids, n)|] == n
    decreases k
  {
    if n < k - 1 {
      OrderRank(ids, n, k - 1);
    }
  }

  lemma OrderCounts(ids: set<int>, k: nat)
    requires forall n :: n in ids ==> 0 <= n < k
    ensures |Order(ids, k)| == |ids|
  {
    hide Order;
    OrderDistinct(ids, k);
    var r := Order(ids, k);
    forall n ensures n in r <==> n in ids {
      if n in ids { OrderRank(ids, n, k); }
    }
    ElementsCount(r, ids);
  }

  lemma {:induction false} ElementsCount(xs: seq<int>, ids: set<int>)
    requires Distinct(xs) && forall n :: n in xs <==> n in ids
    ensures |xs| == |ids|
  {
    if xs == [] {
      assert forall n :: n in ids ==> n in xs;
      assert ids == {};
    } else {
      var rest := xs[1..];
      assert xs == [xs[0]] + rest;
      forall n ensures n in rest <==> n in ids - {xs[0]} {
        if n in rest { assert n in xs; }
      }
      ElementsCount(rest, ids - {xs[0]});
    }
  }

  lemma PlaceAt(ids: seq<int>, j: nat)
    requires Distinct(ids) && j < |ids|
    ensures Place(ids, ids[j]) == j
  {
    hide Place;
    assert ids[j] in ids;
  }

  /** The list of all records: the new ones in order, then the tried ones in order. */
  ghost function AllIds(s: Book): seq<int>
    requires s.idCount >= 0
  {
    Order(Refd(s.info), s.idCount) + Order(TriedIds(s.info), s.idCount)
  }

  lemma RefdIsNew(s: Book)
    requires Structure(s, {})
    ensures Refd(s.info) == NewIds(s.info)
  {
    hide RefBuckets;
    forall n | n in s.info ensures s.info[n].refCount != 0 <==> !s.info[n].inTried {
      if s.info[n].inTried { TriedUnreferenced(s.hash, s.info, s.table, n); }
    }
  }

  lemma AllIdsListed(s: Book)
    requires Consistent(s)
    ensures Listing(s, AllIds(s)) && Ranked(s, AllIds(s))
    ensures |Order(Refd(s.info), s.idCount)| == s.nNew && |Order(TriedIds(s.info), s.idCount)| == s.nTried
  {
    hide Order, Place, Structure, NewSlots, RefCounts, TriedSlots, AddrIndex, RandomIndex, Placed, RefBuckets;
    StructureParts(s, {});
    RefdIsNew(s);
    var x, y := Refd(s.info), TriedIds(s.info);
    var news, trieds, ids := Order(x, s.idCount), Order(y, s.idCount), AllIds(s);
    OrderDistinct(x, s.idCount);
    OrderDistinct(y, s.idCount);
    OrderCounts(x, s.idCount);
    OrderCounts(y, s.idCount);
    assert Distinct(ids);
    forall j | 0 <= j < |ids| ensures ids[j] in s.info && Place(ids, ids[j]) ==
        j && (s.info[ids[j]].inTried <==> j >= s.nNew) {
      PlaceAt(ids, j);
      assert ids[j] == if j < s.nNew then news[j] else trieds[j - s.nNew];
    }
    forall n | n in s.info ensures Place(ids, n) >= 0 {
      assert n in x || n in y;
      if n in x { OrderRank(x, n, s.idCount); } else { OrderRank(y, n, s.idCount); }
      assert n in news || n in trieds;
      assert news <= ids;
      assert n in trieds ==> n in ids;
    }
    forall n | n in s.info && !s.info[n].inTried ensures Rank(s.info, n) == Place(ids, n) {
      var j := |Order(x, n)|;
      assert n in x;
      OrderRank(x, n, s.idCount);
      assert ids[j] == news[j] == n;
      PlaceAt(ids, j);
    }
  }

  // ----- nothing is refused -----

  function CellAt(t: Table, buckets: nat, c: nat): int
    requires Shape(t, buckets) && c < buckets * BUCKET_SIZE
  {
    t[c / BUCKET_SIZE][c % BUCKET_SIZE]
  }

  ghost function Cells(t: Table, buckets: nat, m: nat): set<int>
    requires Shape(t, buckets) && m <= buckets * BUCKET_SIZE
  {
    if m == 0 then {} else Cells(t, buckets, m - 1) + {CellAt(t, buckets, m - 1)}
  }

  lemma {:induction false} CellsBound(t: Table, buckets: nat, m: nat)
    requires Shape(t, buckets) && m <= buckets * BUCKET_SIZE
    ensures |Cells(t, buckets, m)| <= m
    ensures forall c: nat :: c < m ==> CellAt(t, buckets, c) in Cells(t, buckets, m)
    decreases m
  {
    hide CellAt;
    if m > 0 { CellsBound(t, buckets, m - 1); }
  }

  lemma CellCode(t: Table, buckets: nat, b: nat, i: nat)
    requires Shape(t, buckets) && b < buckets && i < BUCKET_SIZE
    ensures b * BUCKET_SIZE + i < buckets * BUCKET_SIZE && CellAt(t, buckets, b * BUCKET_SIZE + i) == t[b][i]
  {
  }

  lemma TableHolds(t: Table, buckets: nat, ids: set<int>)
    requires Shape(t, buckets)
    requires forall n :: n in ids ==> exists b, i :: 0 <= b < buckets && 0 <= i < BUCKET_SIZE && t[b][i] == n
    ensures |ids| <= buckets * BUCKET_SIZE
  {
    hide Cells, CellAt;
    var m := buckets * BUCKET_SIZE;
    CellsBound(t, buckets, m);
    forall n | n in ids ensures n in Cells(t, buckets, m) {
      var b, i :| 0 <= b < buckets && 0 <= i < BUCKET_SIZE && t[b][i] == n;
      CellCode(t, buckets, b, i);
    }
    SubsetSize(ids, Cells(t, buckets, m));
  }

  lemma CountersFit(s: Book)
    requires Consistent(s)
    ensures s.nNew <= NEW_BUCKET_COUNT * BUCKET_SIZE && s.nTried <= TRIED_BUCKET_COUNT * BUCKET_SIZE
  {
    forall n | n in NewIds(s.info)
      ensures exists b, i :: 0 <= b < NEW_BUCKET_COUNT && 0 <= i < BUCKET_SIZE && s.table[b][i] == n
    {
      var refs := RefBuckets(s.hash, s.table, s.info[n].Service(), n);
      assert |refs| >= 1;
      var b :| b in refs;
      assert s.table[b][s.hash.NewPos(s.info[n].Service(), b)] == n;
    }
    TableHolds(s.table, NEW_BUCKET_COUNT, NewIds(s.info));
    forall n | n in TriedIds(s.info)
      ensures exists b, i :: 0 <= b < TRIED_BUCKET_COUNT && 0 <= i < BUCKET_SIZE && s.tried[b][i] == n
    {
      assert s.tried[s.hash.TriedBucket(s.info[n].Service())][s.hash.TriedPos(s.info[n].Service())] == n;
    }
    TableHolds(s.tried, TRIED_BUCKET_COUNT, TriedIds(s.info));
  }

  lemma {:induction false} NothingPruned(s: Book, k: nat)
    requires RandomIndex(s.info, s.random)
    requires forall n :: n in s.info ==> s.info[n].inTried || s.info[n].refCount != 0
    ensures Prune(s, k) == s
  {
    hide RandomIndex, Forget;
    if k > 0 { NothingPruned(s, k - 1); }
  }

  // ----- all stages together -----

  lemma TargetStart(s: Book, ids: seq<int>)
    requires Structure(s, {}) && Listing(s, ids)
    ensures var none := EmptyTable(NEW_BUCKET_COUNT);
      Target(s, ids, 0, none, 0) == NewBook(s.hash).(nNew := s.nNew, nTried := s.nTried)
  {
    hide Place, Structure;
    StructureParts(s, {});
    var none := EmptyTable(NEW_BUCKET_COUNT);
    TablesEqual(Renamed(ids, none, |ids|), none);
    var x, y := Renamed(ids, s.tried, 0), EmptyTable(TRIED_BUCKET_COUNT);
    forall b | 0 <= b < |x| ensures x[b] == y[b] { }
    assert x == y;
    assert Records(s, ids, 0, none) == map[] && Addresses(s, ids, 0) == map[] && Count(0) == [];
  }

  lemma {:induction false} NewStages(s: Book, ids: seq<int>, es: seq<Saved>)
    requires Structure(s, {}) && Listing(s, ids) && |es| <= s.nNew
    requires forall j :: 0 <= j < |es| ==> es[j] == Persist(s.info[ids[j]])
    ensures var none := EmptyTable(NEW_BUCKET_COUNT);
      var s0 := Target(s, ids, 0, none, 0);
      Loading(s0, 0) && LoadNew(s0, es, false) == Target(s, ids, |es|, none, 0)
    decreases |es|
  {
    hide Target, Structure, NewEntry, EmptyTable, Place;
    StructureParts(s, {});
    TargetLoading(s, ids, 0, EmptyTable(NEW_BUCKET_COUNT), 0);
    if es != [] {
      var k := |es| - 1;
      NewStages(s, ids, es[..k]);
      NewStage(s, ids, k);
    }
  }

  lemma {:induction false} TriedStages(s: Book, ids: seq<int>, es: seq<Saved>)
    requires Structure(s, {}) && Listing(s, ids) && |es| <= s.nTried
    requires forall j :: 0 <= j < |es| ==> es[j] == Persist(s.info[ids[s.nNew + j]])
    ensures var none := EmptyTable(NEW_BUCKET_COUNT);
      var s1 := Target(s, ids, s.nNew, none, s.nNew);
      && s1.idCount == s.nNew && Loading(s1, s.nNew)
      && LoadTried(s1, es) == Target(s, ids, s.nNew + |es|, none, s.nNew + |es|)
    decreases |es|
  {
    hide Target, Structure, TriedEntry, EmptyTable, Place, TriedSlots, NewSlots, AddrIndex, RandomIndex, RefCounts;
    hide Placed, Loading;
    StructureParts(s, {});
    TargetLoading(s, ids, s.nNew, EmptyTable(NEW_BUCKET_COUNT), s.nNew);
    TargetIdCount(s, ids, s.nNew, EmptyTable(NEW_BUCKET_COUNT), s.nNew);
    if es != [] {
      var k := |es| - 1;
      TriedStages(s, ids, es[..k]);
      TriedStage(s, ids, s.nNew + k);
    }
  }

  lemma TargetIdCount(s: Book, ids: seq<int>, k: nat, part: Table, idCount: int)
    requires Listing(s, ids) && k <= |ids| && Shape(part, NEW_BUCKET_COUNT)
    ensures Target(s, ids, k, part, idCount).idCount == idCount
    ensures Target(s, ids, k, part, 0).(idCount := idCount) == Target(s, ids, k, part, idCount)
  {
  }

  /** The loaded manager is s with its records renamed. */
  ghost predicate Renames(s: Book, t: Book, ids: seq<int>)
    requires Listing(s, ids)
  {
    && t.hash == s.hash && t.nNew == s.nNew && t.nTried == s.nTried && t.idCount == |ids|
    && (forall j :: j in t.info <==> 0 <= j < |ids|)
    && (forall n :: n in s.info ==> Place(ids, n) in t.info && Same(s.info[n], t.info[Place(ids, n)]))
    && |t.table| == |s.table| && |t.tried| == |s.tried|
    && SameCells(s.table, t.table, ids) && SameCells(s.tried, t.tried, ids)
  }

  /** Persistent data, reference count and status agree. */
  predicate Same(e: AddrInfo, f: AddrInfo)
  {
    Persist(f) == Persist(e) && f.refCount == e.refCount && f.inTried == e.inTried
  }

  ghost predicate SameCells(x: Table, y: Table, ids: seq<int>)
  {
    && |x| == |y| && (forall b :: 0 <= b < |x| ==> |x[b]| == |y[b]|)
    && (forall b, i :: 0 <= b < |x| && 0 <= i < |x[b]| ==> y[b][i] == if x[b][i] ==
          EMPTY then EMPTY else Place(ids, x[b][i]))
  }

  lemma TargetRenames(s: Book, ids: seq<int>)
    requires Consistent(s) && Listing(s, ids)
    ensures Shape(s.table, NEW_BUCKET_COUNT) && Renames(s, Target(s, ids, |ids|, s.table, |ids|), ids)
  {
    hide Place, RefBuckets, Structure, Listing, NewSlots, TriedSlots, Records, Renamed, Addresses, SameCells, Same;
    hide RefCounts, AddrIndex;
    hide RandomIndex, Placed, Counters;
    StructureOf(s);
    StructureParts(s, {});
    RecordsOrder(s, ids);
    RecordsSame(s, ids);
    CellsKnown(s);
    CellsRenamed(s, ids, s.table);
    CellsRenamed(s, ids, s.tried);
  }

  lemma RecordsSame(s: Book, ids: seq<int>)
    requires Listing(s, ids) && Shape(s.table, NEW_BUCKET_COUNT) && RefCounts(s.hash, s.info, s.table)
    ensures var r := Records(s, ids, |ids|, s.table);
      forall n :: n in s.info ==> Place(ids, n) in r && Same(s.info[n], r[Place(ids, n)])
  {
    hide Place, RefBuckets;
    var r := Records(s, ids, |ids|, s.table);
    forall n | n in s.info ensures Place(ids, n) in r && Same(s.info[n], r[Place(ids, n)]) {
      assert ids[Place(ids, n)] == n;
    }
  }

  lemma CellsKnown(s: Book)
    requires NewSlots(s.hash, s.info, s.table) && TriedSlots(s.hash, s.info, s.tried)
    ensures AllKnown(s.info, s.table) && AllKnown(s.info, s.tried)
  {
  }

  ghost predicate AllKnown(info: Infos, t: Table)
  {
    forall b, i :: 0 <= b < |t| && 0 <= i < |t[b]| && t[b][i] != EMPTY ==> t[b][i] in info
  }

  lemma CellsRenamed(s: Book, ids: seq<int>, t: Table)
    requires Listing(s, ids) && AllKnown(s.info, t)
    ensures SameCells(t, Renamed(ids, t, |ids|), ids)
  {
    hide Place;
    var r := Renamed(ids, t, |ids|);
    forall b, i | 0 <= b < |t| && 0 <= i < |t[b]| ensures r[b][i] == if t[b][i] ==
        EMPTY then EMPTY else Place(ids, t[b][i]) {
      if t[b][i] != EMPTY { assert t[b][i] in s.info; }
    }
  }

  lemma TargetOrder(s: Book, ids: seq<int>)
    requires Listing(s, ids) && Shape(s.table, NEW_BUCKET_COUNT)
    ensures var t := Target(s, ids, |ids|, s.table, |ids|); IdsBelow(t.info, t.idCount) && RandomIndex(t.info, t.random)
  {
    hide Place, RefBuckets, Renamed, Addresses, Kept, Listing;
    RecordsOrder(s, ids);
  }

  lemma RecordsOrder(s: Book, ids: seq<int>)
    requires Listing(s, ids) && Shape(s.table, NEW_BUCKET_COUNT)
    ensures var r := Records(s, ids, |ids|, s.table);
      (forall j :: j in r <==> 0 <= j < |ids|) && forall j :: j in r ==> r[j].randomPos == j
  {
    hide Place, RefBuckets;
  }

  lemma TargetAddresses(s: Book, ids: seq<int>)
    requires AddrIndex(s.info, s.addr) && Listing(s, ids) && Shape(s.table, NEW_BUCKET_COUNT)
    ensures AddrIndex(Records(s, ids, |ids|, s.table), Addresses(s, ids, |ids|))
  {
    hide Place, RefBuckets;
    var r, addr := Records(s, ids, |ids|, s.table), Addresses(s, ids, |ids|);
    forall a | a in addr ensures addr[a] in r && r[addr[a]].Net() == a {
      assert a in s.addr && s.addr[a] in s.info;
    }
    forall j | j in r ensures r[j].Net() in addr && addr[r[j].Net()] == j {
      assert ids[j] in s.info;
    }
  }

  lemma TargetNewSlots(s: Book, ids: seq<int>)
    requires NewSlots(s.hash, s.info, s.table) && Listing(s, ids)
    ensures var t := Target(s, ids, |ids|, s.table, |ids|); NewSlots(t.hash, t.info, t.table)
  {
    hide Place, RefBuckets;
    var t := Target(s, ids, |ids|, s.table, |ids|);
    forall b, i | 0 <= b < NEW_BUCKET_COUNT && 0 <= i < BUCKET_SIZE && t.table[b][i] != EMPTY
      ensures t.table[b][i] in t.info && !t.info[t.table[b][i]].inTried
      ensures t.hash.NewPos(t.info[t.table[b][i]].Service(), b) == i
    {
      assert s.table[b][i] != EMPTY && s.table[b][i] in s.info;
    }
  }

  lemma TargetTriedSlots(s: Book, ids: seq<int>)
    requires TriedSlots(s.hash, s.info, s.tried) && Listing(s, ids) && Shape(s.table, NEW_BUCKET_COUNT)
    requires EMPTY !in s.info
    ensures var t := Target(s, ids, |ids|, s.table, |ids|); TriedSlots(t.hash, t.info, t.tried)
  {
    hide Place, RefBuckets;
    var t := Target(s, ids, |ids|, s.table, |ids|);
    forall b, i | 0 <= b < TRIED_BUCKET_COUNT && 0 <= i < BUCKET_SIZE && t.tried[b][i] != EMPTY
      ensures t.tried[b][i] in t.info && t.info[t.tried[b][i]].inTried
      ensures t.hash.TriedBucket(t.info[t.tried[b][i]].Service()) == b
      ensures t.hash.TriedPos(t.info[t.tried[b][i]].Service()) == i
    {
      assert s.tried[b][i] != EMPTY && s.tried[b][i] in s.info;
    }
    forall j | j in t.info && t.info[j].inTried
      ensures t.tried[t.hash.TriedBucket(t.info[j].Service())][t.hash.TriedPos(t.info[j].Service())] == j
    {
      assert ids[j] in s.info && s.info[ids[j]].inTried;
    }
  }

  lemma TargetRefCounts(s: Book, ids: seq<int>)
    requires NewSlots(s.hash, s.info, s.table) && RefCounts(s.hash, s.info, s.table) && Listing(s, ids)
    requires EMPTY !in s.info
    ensures var t := Target(s, ids, |ids|, s.table, |ids|);
      Shape(t.table, NEW_BUCKET_COUNT) && RefCounts(t.hash, t.info, t.table)
  {
    hide Place;
    var t := Target(s, ids, |ids|, s.table, |ids|);
    forall j | j in t.info ensures t.info[j].refCount == |RefBuckets(t.hash, t.table, t.info[j].Service(), j)| {
      RefsRenamed(s, ids, j);
    }
  }

  /** A renamed record is referred to from the same buckets. */
  lemma RefsRenamed(s: Book, ids: seq<int>, j: nat)
    requires NewSlots(s.hash, s.info, s.table) && Listing(s, ids) && j < |ids| && EMPTY !in s.info
    ensures var x := s.info[ids[j]].Service();
      RefBuckets(s.hash, Renamed(ids, s.table, |ids|), x, j) == RefBuckets(s.hash, s.table, x, ids[j])
  {
    hide Place;
    var x := s.info[ids[j]].Service();
    forall b: nat | b < NEW_BUCKET_COUNT
      ensures Renamed(ids, s.table, |ids|)[b][s.hash.NewPos(x, b)] == j <==> s.table[b][s.hash.NewPos(x, b)] == ids[j]
    {
      var c := s.table[b][s.hash.NewPos(x, b)];
      if c != EMPTY { assert c in s.info && Place(ids, c) >= 0; }
    }
  }

  lemma {:induction false} IntervalSize(lo: int, n: nat, r: set<int>)
    requires forall j :: j in r <==> lo <= j < lo + n
    ensures |r| == n
    decreases n
  {
    if n == 0 {
      assert forall j :: j in r ==> lo <= j < lo + n;
      assert r == {};
    } else {
      IntervalSize(lo, n - 1, r - {lo + n - 1});
      assert lo + n - 1 in r;
    }
  }

  lemma TargetCounters(s: Book, ids: seq<int>)
    requires Listing(s, ids) && Shape(s.table, NEW_BUCKET_COUNT)
    ensures Counters(Target(s, ids, |ids|, s.table, |ids|), 0)
  {
    hide Place, RefBuckets, Renamed, Addresses;
    var t := Target(s, ids, |ids|, s.table, |ids|);
    IntervalSize(0, s.nNew, NewIds(t.info));
    IntervalSize(s.nNew, s.nTried, TriedIds(t.info));
  }

  lemma TargetStatus(s: Book, ids: seq<int>)
    requires RefCountsHold(s) && Placed(s.info, {}) && Times(s.info) && Listing(s, ids)
    ensures var t := Target(s, ids, |ids|, s.table, |ids|); Placed(t.info, {}) && Times(t.info)
  {
    hide Place, RefBuckets, Renamed, Addresses;
    var t := Target(s, ids, |ids|, s.table, |ids|);
    forall j | j in t.info
      ensures (t.info[j].inTried || t.info[j].refCount >= 1) && t.info[j].lastTry >= 0
      ensures t.info[j].lastSuccess >= 0 && (t.info[j].inTried ==> t.info[j].lastSuccess != 0)
    {
      assert ids[j] in s.info;
    }
  }

  ghost predicate RefCountsHold(s: Book)
  {
    Shape(s.table, NEW_BUCKET_COUNT) && RefCounts(s.hash, s.info, s.table)
  }

  /** A renaming of a consistent manager is consistent. */
  lemma TargetConsistent(s: Book, ids: seq<int>)
    requires Valid(s) && Listing(s, ids)
    ensures Shape(s.table, NEW_BUCKET_COUNT) && Valid(Target(s, ids, |ids|, s.table, |ids|))
  {
    hide Place, Structure, IdsBelow, AddrIndex, RandomIndex, NewSlots, RefCounts, TriedSlots, Placed, Times, Counters;
    hide Records, Addresses, Renamed;
    StructureParts(s, {});
    TargetOrder(s, ids);
    TargetAddresses(s, ids);
    TargetNewSlots(s, ids);
    TargetTriedSlots(s, ids);
    TargetRefCounts(s, ids);
    TargetStatus(s, ids);
    TargetCounters(s, ids);
    StructureWhole(Target(s, ids, |ids|, s.table, |ids|), {});
  }

  /** The records of a saved manager, loaded. */
  lemma EntriesLoaded(s: Book)
    requires Consistent(s)
    ensures s.idCount >= 0 && Listing(s, AllIds(s)) && |Save(s).news| == s.nNew && |Save(s).trieds| == s.nTried
    ensures var ids := AllIds(s);
      LoadEntries(Save(s), true) == Target(s, ids, |ids|, EmptyTable(NEW_BUCKET_COUNT), |ids|)
  {
    hide Target, AllIds, Save, Place, Structure, LoadNew, LoadTried, EmptyTable, NewBook, Listing, Loading;
    StructureOf(s);
    SavedEntries(s);
    var ids, st, none := AllIds(s), Save(s), EmptyTable(NEW_BUCKET_COUNT);
    TargetStart(s, ids);
    NewStages(s, ids, st.news);
    TargetIdCount(s, ids, s.nNew, none, s.nNew);
    TriedStages(s, ids, st.trieds);
  }

  /** What is written about records: the new ones, then the tried ones, in the order of the list. */
  lemma SavedEntries(s: Book)
    requires Consistent(s)
    ensures s.idCount >= 0 && Listing(s, AllIds(s)) && 0 <= s.nNew && 0 <= s.nTried && |AllIds(s)| == s.nNew + s.nTried
    ensures forall j :: 0 <= j < |AllIds(s)| ==> AllIds(s)[j] in s.info
    ensures var ids, st := AllIds(s), Save(s);
      && st.key == s.hash && st.nNew == s.nNew && st.nTried == s.nTried && |st.news| == s.nNew && |st.trieds| ==
            s.nTried
      && (forall j :: 0 <= j < |st.news| ==> st.news[j] == Persist(s.info[ids[j]]))
      && (forall j :: 0 <= j < |st.trieds| ==> st.trieds[j] == Persist(s.info[ids[s.nNew + j]]))
  {
    hide Order, Place, Structure, Places, Listing, Ranked, Counters, Refd, TriedIds, Entries, Consistent;
    IdCountKnown(s);
    AllIdsListed(s);
    ListingSizes(s, AllIds(s));
    EntriesJoin(s.info, Order(Refd(s.info), s.idCount), Order(TriedIds(s.info), s.idCount));
  }

  lemma IdCountKnown(s: Book)
    requires Consistent(s)
    ensures s.idCount >= 0
    ensures forall n :: n in Refd(s.info) ==> n in s.info
    ensures forall n :: n in TriedIds(s.info) ==> n in s.info
  {
    hide NewSlots, RefCounts, AddrIndex, RandomIndex, TriedSlots, Placed, Counters;
  }

  lemma EntriesJoin(info: Infos, a: seq<int>, b: seq<int>)
    requires forall j :: 0 <= j < |a| ==> a[j] in info
    requires forall j :: 0 <= j < |b| ==> b[j] in info
    ensures forall j :: 0 <= j < |a| ==> (a + b)[j] in info && Entries(info, a)[j] == Persist(info[(a + b)[j]])
    ensures forall j :: 0 <= j < |b| ==>
      (a + b)[|a| + j] in info && Entries(info, b)[j] == Persist(info[(a + b)[|a| + j]])
  {
    hide Entries, Persist;
  }

  lemma StructureOf(s: Book)
    requires Consistent(s)
    ensures Structure(s, {})
  {
    hide Structure;
  }

  lemma ListingSizes(s: Book, ids: seq<int>)
    requires Listing(s, ids)
    ensures 0 <= s.nNew && 0 <= s.nTried && |ids| == s.nNew + s.nTried
    ensures forall j :: 0 <= j < |ids| ==> ids[j] in s.info
  {
    hide Place;
  }

  /** And with the positions of the new table. */
  lemma PlacesLoaded(s: Book)
    requires Consistent(s)
    ensures s.idCount >= 0 && Listing(s, AllIds(s)) && Shape(s.table, NEW_BUCKET_COUNT)
    ensures |Save(s).places| == NEW_BUCKET_COUNT
    ensures var ids := AllIds(s);
      var t := Target(s, ids, |ids|, EmptyTable(NEW_BUCKET_COUNT), |ids|);
      && Loading(t, |ids|) && t.idCount == |ids| && t.nNew <= |ids|
      && LoadBuckets(t, Save(s).places, true) == Target(s, ids, |ids|, s.table, |ids|)
  {
    hide Target, Order, Place, Structure, LoadBuckets, Places, EmptyTable, Listing, Ranked, Counters, Loading;
    hide Entries, Refd, TriedIds;
    StructureOf(s);
    StructureParts(s, {});
    AllIdsListed(s);
    BucketsStage(s, AllIds(s), Save(s).places);
    UptoEnds(s.table, 0);
  }

  /** Saving a manager and loading it into a newly constructed one: nothing is lost or pruned, and
      every table, count and persistent field is the same up to the renaming of ids. */
  lemma LoadSave(s: Book)
    requires Valid(s)
    ensures var ids := AllIds(s);
      var r := Load(Save(s));
      && Listing(s, ids) && r.Loaded? && Renames(s, r.book, ids) && Valid(r.book)
  {
    hide Target, AllIds, Listing, Structure, LoadEntries, LoadBuckets, Places, Prune, EmptyTable, Renames, Order;
    hide Entries, Valid, Counters, Loading;
    ValidIsConsistent(s);
    EntriesLoaded(s);
    PlacesLoaded(s);
    CountersFit(s);
    var ids := AllIds(s);
    var t := Target(s, ids, |ids|, s.table, |ids|);
    TargetRenames(s, ids);
    TargetConsistent(s, ids);
    TargetPlaced(t);
    TargetIdCount(s, ids, |ids|, s.table, |ids|);
    NothingPruned(t, |ids|);
  }

  lemma ValidIsConsistent(s: Book)
    requires Valid(s)
    ensures Consistent(s)
  {
    hide Consistent;
  }

  lemma TargetPlaced(t: Book)
    requires Valid(t)
    ensures RandomIndex(t.info, t.random)
    ensures forall n :: n in t.info ==> t.info[n].inTried || t.info[n].refCount != 0
  {
  }
}
