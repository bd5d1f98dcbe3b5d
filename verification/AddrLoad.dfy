/** What loading makes of any stream whatever: everything agrees, save that a repeated address is found under
    the last of its records only. */
module AddrLoad {
  import opened AddrBook
  import opened AddrSteps
  import opened AddrRuns
  import opened AddrDisk

  /** Tables, counts and records agree. */
  ghost predicate Tables(s: Book)
  {
    && NewSlots(s.hash, s.info, s.table) && RefCounts(s.hash, s.info, s.table) && TriedSlots(s.hash, s.info, s.tried)
    && EMPTY !in s.info
  }

  /** The records read first are the new ones, the others are tried. */
  ghost predicate Split(s: Book, nNew: int) { forall n :: n in s.info ==> (s.info[n].inTried <==> n >= nNew) }

  lemma NewBookTables(hash: Hashing)
    ensures Tables(NewBook(hash)) && Loading(NewBook(hash), 0)
  {
  }

  /** One record more, not referenced and not tried. */
  lemma RecordAdded(h: Hashing, before: Infos, table: Table, tried: Table, n: int, x: AddrInfo)
    requires NewSlots(h, before, table) && RefCounts(h, before, table) && TriedSlots(h, before, tried)
    requires n !in before && n != EMPTY && EMPTY !in before && x.refCount == 0 && !x.inTried
    ensures var after := before[n := x];
      NewSlots(h, after, table) && RefCounts(h, after, table) && TriedSlots(h, after, tried) && EMPTY !in after
  {
    hide RefCounts;
    CreateKeepsRefs(h, before, before[n := x], table, n);
  }

  lemma NewEntryTables(s: Book, n: nat, e: Saved, fallback: bool)
    requires Loading(s, n) && Tables(s) && Split(s, n)
    ensures Tables(NewEntry(s, n, e, fallback)) && Split(NewEntry(s, n, e, fallback), n + 1)
    ensures NewEntry(s, n, e, fallback).hash == s.hash
  {
    hide NewSlots, RefCounts, TriedSlots;
    var x := Restored(e, |s.random|);
    RecordAdded(s.hash, s.info, s.table, s.tried, n, x);
    var b := s.hash.NewBucket(x.Service(), x.source);
    if fallback && s.table[b][s.hash.NewPos(x.Service(), b)] == EMPTY {
      var mid := s.info[n := x];
      ReferKeeps(s.hash, mid, s.table, s.tried, b, n);
      assert mid[n := mid[n].(refCount := mid[n].refCount + 1)] == NewEntry(s, n, e, fallback).info;
    }
  }

  lemma {:induction false} LoadNewTables(s: Book, es: seq<Saved>, fallback: bool)
    requires Loading(s, 0) && Tables(s)
    ensures Tables(LoadNew(s, es, fallback)) && Split(LoadNew(s, es, fallback), |es|)
    ensures LoadNew(s, es, fallback).hash == s.hash
    decreases |es|
  {
    hide Tables, NewEntry;
    if es != [] {
      var k := |es| - 1;
      LoadNewTables(s, es[..k], fallback);
      NewEntryTables(LoadNew(s, es[..k], fallback), k, es[k], fallback);
    }
  }

  lemma TriedEntryTables(s: Book, e: Saved, nNew: int)
    requires s.idCount >= nNew && s.idCount >= 0 && Loading(s, s.idCount) && Tables(s) && Split(s, nNew)
    ensures var t := TriedEntry(s, e);
      Tables(t) && Split(t, nNew) && t.idCount - t.nTried == s.idCount - s.nTried + 1 && t.hash == s.hash
  {
    hide NewSlots, RefCounts, TriedSlots;
    var x := Restored(e, |s.random|);
    var b, i := s.hash.TriedBucket(x.Service()), s.hash.TriedPos(x.Service());
    if s.tried[b][i] == EMPTY {
      RecordAdded(s.hash, s.info, s.table, s.tried, s.idCount, x);
      var mid := s.info[s.idCount := x];
      EnterTriedKeeps(s.hash, mid, s.table, s.tried, s.idCount);
      assert mid[s.idCount := mid[s.idCount].(inTried := true)] == TriedEntry(s, e).info;
    }
  }

  lemma {:induction false} LoadTriedTables(s: Book, es: seq<Saved>, nNew: int)
    requires s.idCount >= nNew && s.idCount >= 0 && Loading(s, s.idCount) && Tables(s) && Split(s, nNew)
    ensures var t := LoadTried(s, es);
      Tables(t) && Split(t, nNew) && t.idCount - t.nTried == s.idCount - s.nTried + |es| && t.hash == s.hash
    decreases |es|
  {
    hide Tables, Split, TriedEntry;
    if es != [] {
      LoadTriedTables(s, es[..|es| - 1], nNew);
      TriedEntryTables(LoadTried(s, es[..|es| - 1]), es[|es| - 1], nNew);
    }
  }

  lemma PositionTables(s: Book, b: nat, index: int, usable: bool)
    requires s.idCount >= 0 && Loading(s, s.idCount) && s.nNew <= s.idCount && (usable ==> b < NEW_BUCKET_COUNT)
    requires Tables(s) && Split(s, s.nNew)
    ensures var t := Position(s, b, index, usable);
      Tables(t) && Split(t, s.nNew) && t.nTried == s.nTried && t.hash == s.hash
  {
    hide NewSlots, RefCounts, TriedSlots;
    if 0 <= index < s.nNew {
      var i := s.hash.NewPos(s.info[index].Service(), b);
      if usable && s.table[b][i] == EMPTY && s.info[index].refCount < NEW_BUCKETS_PER_ADDRESS {
        ReferKeeps(s.hash, s.info, s.table, s.tried, b, index);
      }
    }
  }

  lemma {:induction false} LoadBucketTables(s: Book, b: nat, indexes: seq<int>, usable: bool)
    requires s.idCount >= 0 && Loading(s, s.idCount) && s.nNew <= s.idCount && (usable ==> b < NEW_BUCKET_COUNT)
    requires Tables(s) && Split(s, s.nNew)
    ensures var t := LoadBucket(s, b, indexes, usable);
      Tables(t) && Split(t, s.nNew) && t.nTried == s.nTried && t.hash == s.hash
    decreases |indexes|
  {
    hide Tables, Split, Position;
    if indexes != [] {
      LoadBucketTables(s, b, indexes[..|indexes| - 1], usable);
      PositionTables(LoadBucket(s, b, indexes[..|indexes| - 1], usable), b, indexes[|indexes| - 1], usable);
    }
  }

  lemma {:induction false} LoadBucketsTables(s: Book, places: seq<seq<int>>, usable: bool)
    requires s.idCount >= 0 && Loading(s, s.idCount) && s.nNew <= s.idCount && (usable ==> |places| <= NEW_BUCKET_COUNT)
    requires Tables(s) && Split(s, s.nNew)
    ensures var t := LoadBuckets(s, places, usable);
      Tables(t) && Split(t, s.nNew) && t.nTried == s.nTried && t.hash == s.hash
    decreases |places|
  {
    hide Tables, Split, LoadBucket;
    if places != [] {
      var k := |places| - 1;
      LoadBucketsTables(s, places[..k], usable);
      LoadBucketTables(LoadBuckets(s, places[..k], usable), k, places[k], usable);
    }
  }

  /** Pruning removes exactly the records that are neither tried nor referenced. */
  lemma {:induction false} PruneTables(s: Book, k: nat)
    requires RandomIndex(s.info, s.random) && Tables(s)
    ensures var t := Prune(s, k);
      && Tables(t) && SameButOrder(s.info, t.info) && t.nTried == s.nTried && t.idCount == s.idCount
      && t.hash == s.hash
      && (forall n :: n in t.info <==> n in s.info && !(0 <= n < k && !s.info[n].inTried && s.info[n].refCount == 0))
      && t.nNew - |NewIds(t.info)| == s.nNew - |NewIds(s.info)| && TriedIds(t.info) == TriedIds(s.info)
    decreases k
  {
    hide NewSlots, RefCounts, TriedSlots, NewIds, TriedIds, RandomIndex, Forget;
    if k > 0 {
      PruneTables(s, k - 1);
      var t := Prune(s, k - 1);
      if k - 1 in t.info && !t.info[k - 1].inTried && t.info[k - 1].refCount == 0 {
        ForgetKeepsRandom(t, k - 1);
        ForgetKeepsTables(t.hash, t.info, Forget(t, k - 1).info, t.table, t.tried, k - 1);
        ForgetIds(t.info, Forget(t, k - 1).info, k - 1);
      }
    }
  }

  predicate HomeTaken(s: Book, e: Saved)
    requires Shape(s.table, NEW_BUCKET_COUNT)
  {
    var b := s.hash.NewBucket(e.address.service, e.source);
    s.table[b][s.hash.NewPos(e.address.service, b)] != EMPTY
  }

  lemma NewEntryTaken(s: Book, n: nat, e: Saved, f: Saved)
    requires Loading(s, n)
    ensures var t := NewEntry(s, n, e, true);
      t.hash == s.hash && HomeTaken(t, e) && (HomeTaken(s, f) ==> HomeTaken(t, f))
  {
  }

  /** Where the positions cannot be used, a new record is left without a reference only if another one has taken
      the cell that its own source leads to. */
  lemma {:induction false} FallbackTaken(s: Book, es: seq<Saved>)
    requires Loading(s, 0)
    ensures var t := LoadNew(s, es, true);
      t.hash == s.hash && forall j :: 0 <= j < |es| ==> HomeTaken(t, es[j])
    decreases |es|
  {
    hide HomeTaken, NewEntry;
    if es != [] {
      var k := |es| - 1;
      FallbackTaken(s, es[..k]);
      forall j | 0 <= j < |es| ensures HomeTaken(LoadNew(s, es, true), es[j]) {
        NewEntryTaken(LoadNew(s, es[..k], true), k, es[k], es[j]);
        if j < k { assert HomeTaken(LoadNew(s, es[..k], true), es[..k][j]); }
      }
      NewEntryTaken(LoadNew(s, es[..k], true), k, es[k], es[k]);
    }
  }

  predicate CellTaken(s: Book, e: Saved)
    requires Shape(s.tried, TRIED_BUCKET_COUNT)
  {
    s.tried[s.hash.TriedBucket(e.address.service)][s.hash.TriedPos(e.address.service)] != EMPTY
  }

  lemma TriedEntryTaken(s: Book, e: Saved, f: Saved)
    requires s.idCount >= 0 && Loading(s, s.idCount)
    ensures var t := TriedEntry(s, e); t.hash == s.hash && CellTaken(t, e) && (CellTaken(s, f) ==> CellTaken(t, f))
  {
  }

  /** A tried record is lost only if another one has taken its cell. */
  lemma {:induction false} TriedTaken(s: Book, es: seq<Saved>)
    requires s.idCount >= 0 && Loading(s, s.idCount)
    ensures LoadTried(s, es).hash == s.hash && forall j :: 0 <= j < |es| ==> CellTaken(LoadTried(s, es), es[j])
    decreases |es|
  {
    hide CellTaken, TriedEntry;
    if es != [] {
      var k := |es| - 1;
      TriedTaken(s, es[..k]);
      forall j | 0 <= j < |es| ensures CellTaken(LoadTried(s, es), es[j]) {
        TriedEntryTaken(LoadTried(s, es[..k]), es[k], es[j]);
        if j < k { assert CellTaken(LoadTried(s, es[..k]), es[..k][j]); }
      }
      TriedEntryTaken(LoadTried(s, es[..k]), es[k], es[k]);
    }
  }

  lemma LoadingSizes(s: Book)
    requires s.idCount >= 0 && Loading(s, s.idCount) && Split(s, s.nNew) && 0 <= s.nNew <= s.idCount
    ensures |NewIds(s.info)| == s.nNew && |TriedIds(s.info)| == s.idCount - s.nNew
    ensures RandomIndex(s.info, s.random) && IdsBelow(s.info, s.idCount)
  {
    IntervalSize(0, s.nNew, NewIds(s.info));
    IntervalSize(s.nNew, s.idCount - s.nNew, TriedIds(s.info));
  }

  lemma NoneNegative(s: Book)
    requires Tables(s)
    ensures forall n :: n in s.info ==> s.info[n].refCount >= 0
  {
    forall n | n in s.info ensures s.info[n].refCount >= 0 { NotLow(s.hash, s.info, s.table, n); }
  }

  /** Whatever the stream says: if it is accepted, the tables, the reference counts, the random order and both
      counters agree, and every record is tried or referenced; nothing else can disagree but the address index. */
  lemma LoadAny(st: Stream)
    requires Load(st).Loaded?
    ensures var t := Load(st).book;
      && IdsBelow(t.info, t.idCount) && RandomIndex(t.info, t.random) && Tables(t) && Placed(t.info, {})
      && Counters(t, 0) && t.hash == st.key
  {
    hide NewSlots, RefCounts, TriedSlots, LoadNew, LoadTried, LoadBuckets, Prune, RandomIndex, NewIds, TriedIds;
    var buckets := if st.version != 0 then Flip(st.buckets) else st.buckets;
    var usable := st.version == 1 && buckets == NEW_BUCKET_COUNT;
    var s0 := NewBook(st.key).(nNew := st.nNew, nTried := st.nTried);
    NewBookTables(st.key);
    LoadNewTables(s0, st.news, !usable);
    var s1 := LoadNew(s0, st.news, !usable).(idCount := st.nNew);
    LoadTriedTables(s1, st.trieds, st.nNew);
    var s2 := LoadEntries(st, usable);
    LoadBucketsTables(s2, st.places, usable);
    var s3 := LoadBuckets(s2, st.places, usable);
    LoadingSizes(s3);
    PruneTables(s3, s3.idCount);
    var t := Prune(s3, s3.idCount);
    NoneNegative(t);
  }
}
