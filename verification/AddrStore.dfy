/** Writing the address manager to a stream and reading it back, as the source does it: loops over the
    records and cells, filling the fields of a newly constructed object. */
module AddrStore {
  import opened AddrBook
  import opened AddrDisk
  import S = AddrSteps
  import opened AddrManager

  /** The records that refs or status selects, in order of id. */
  method Serialize(m: AddrMan) returns (st: Stream)
    requires S.Consistent(m.State())
    ensures st == Save(m.State())
  {
    hide Order, Refd, TriedIds, Entries, Places, Rank, S.Structure, S.Consistent, S.Counters;
    ghost var s := m.State();
    SaveFacts(s);
    var unkIds, news := WriteNew(m);
    var trieds := WriteTried(m);
    var places: seq<seq<int>> := [];
    for bucket := 0 to NEW_BUCKET_COUNT
      invariant |places| == bucket
      invariant forall b :: 0 <= b < bucket ==> places[b] == Places(m.mapInfo, m.vvNew[b], |m.vvNew[b]|)
    {
      var list := WriteBucket(m, unkIds, bucket);
      places := places + [list];
    }
    st := Stream(1, KEY_SIZE, m.hash, m.nNew, m.nTried, Flip(NEW_BUCKET_COUNT), news, trieds, places);
  }

  lemma SaveFacts(s: S.Book)
    requires S.Consistent(s)
    ensures s.idCount >= 0 && IdsBelow(s.info, s.idCount) && NewSlots(s.hash, s.info, s.table)
    ensures |Order(Refd(s.info), s.idCount)| == s.nNew && |Order(TriedIds(s.info), s.idCount)| == s.nTried
  {
    hide Order;
    S.StructureParts(s, {});
    AllIdsListed(s);
  }

  lemma EntriesNext(info: Infos, ids: set<int>, n: nat)
    requires forall k :: k in ids ==> k in info
    ensures n in ids ==> Entries(info, Order(ids, n + 1)) == Entries(info, Order(ids, n)) + [Persist(info[n])]
    ensures n !in ids ==> Entries(info, Order(ids, n + 1)) == Entries(info, Order(ids, n))
  {
  }

  lemma NothingYet(info: Infos, ids: set<int>)
    ensures Order(ids, 0) == [] && Entries(info, Order(ids, 0)) == []
  {
  }

  lemma RankBelow(ids: set<int>, n: nat, k: nat)
    requires n in ids && n < k
    ensures |Order(ids, n)| < |Order(ids, k)|
  {
    hide Order;
    OrderRank(ids, n, k);
  }

  method WriteNew(m: AddrMan) returns (unkIds: map<int, int>, news: seq<Saved>)
    requires m.nIdCount >= 0 && IdsBelow(m.mapInfo, m.nIdCount)
    requires |Order(Refd(m.mapInfo), m.nIdCount)| == m.nNew
    ensures news == Entries(m.mapInfo, Order(Refd(m.mapInfo), m.nIdCount))
    ensures forall k :: k in m.mapInfo ==> k in unkIds && unkIds[k] == Rank(m.mapInfo, k)
  {
    hide Order, Entries;
    var nIds := 0;
    unkIds, news := map[], [];
    NothingYet(m.mapInfo, Refd(m.mapInfo));
    for n := 0 to m.nIdCount
      invariant news == Entries(m.mapInfo, Order(Refd(m.mapInfo), n))
      invariant nIds == |Order(Refd(m.mapInfo), n)|
      invariant forall k :: k in m.mapInfo && k < n ==> k in unkIds && unkIds[k] == Rank(m.mapInfo, k)
    {
      EntriesNext(m.mapInfo, Refd(m.mapInfo), n);
      if n in m.mapInfo {
        unkIds := unkIds[n := nIds];
        if m.mapInfo[n].refCount != 0 {
          RankBelow(Refd(m.mapInfo), n, m.nIdCount);
          assert nIds != m.nNew;
          news := news + [Persist(m.mapInfo[n])];
          nIds := nIds + 1;
        }
      }
    }
  }

  method WriteTried(m: AddrMan) returns (trieds: seq<Saved>)
    requires m.nIdCount >= 0 && IdsBelow(m.mapInfo, m.nIdCount)
    requires |Order(TriedIds(m.mapInfo), m.nIdCount)| == m.nTried
    ensures trieds == Entries(m.mapInfo, Order(TriedIds(m.mapInfo), m.nIdCount))
  {
    hide Order, Entries;
    var nIds := 0;
    trieds := [];
    NothingYet(m.mapInfo, TriedIds(m.mapInfo));
    for n := 0 to m.nIdCount
      invariant trieds == Entries(m.mapInfo, Order(TriedIds(m.mapInfo), n))
      invariant nIds == |Order(TriedIds(m.mapInfo), n)|
    {
      EntriesNext(m.mapInfo, TriedIds(m.mapInfo), n);
      if n in m.mapInfo && m.mapInfo[n].inTried {
        RankBelow(TriedIds(m.mapInfo), n, m.nIdCount);
        assert nIds != m.nTried;
        trieds := trieds + [Persist(m.mapInfo[n])];
        nIds := nIds + 1;
      }
    }
  }

  method WriteBucket(m: AddrMan, unkIds: map<int, int>, bucket: nat) returns (list: seq<int>)
    requires bucket < NEW_BUCKET_COUNT && NewSlots(m.hash, m.mapInfo, m.vvNew)
    requires forall k :: k in m.mapInfo ==> k in unkIds && unkIds[k] == Rank(m.mapInfo, k)
    ensures list == Places(m.mapInfo, m.vvNew[bucket], |m.vvNew[bucket]|)
  {
    hide Rank;
    var nSize := 0;
    for i := 0 to BUCKET_SIZE
      invariant nSize == |Places(m.mapInfo, m.vvNew[bucket], i)|
    {
      if m.vvNew[bucket][i] != EMPTY { nSize := nSize + 1; }
    }
    list := [];
    for i := 0 to BUCKET_SIZE
      invariant list == Places(m.mapInfo, m.vvNew[bucket], i)
    {
      if m.vvNew[bucket][i] != EMPTY { list := list + [unkIds[m.vvNew[bucket][i]]]; }
    }
    assert |list| == nSize;
  }

  // ----- reading -----

  method ReadNew(m: AddrMan, n: nat, e: Saved, fallback: bool)
    requires Loading(m.State(), n)
    modifies m
    ensures m.State() == NewEntry(old(m.State()), n, e, fallback)
  {
    var info := Restored(e, |m.vRandom|);
    m.mapAddr := m.mapAddr[info.Net() := n];
    m.vRandom := m.vRandom + [n];
    if fallback {
      var nUBucket := m.hash.NewBucket(info.Service(), info.source);
      var nUBucketPos := m.hash.NewPos(info.Service(), nUBucket);
      if m.vvNew[nUBucket][nUBucketPos] == EMPTY {
        m.vvNew := SetCell(m.vvNew, nUBucket, nUBucketPos, n);
        info := info.(refCount := info.refCount + 1);
      }
    }
    m.mapInfo := m.mapInfo[n := info];
  }

  method ReadTried(m: AddrMan, e: Saved) returns (lost: nat)
    requires m.nIdCount >= 0 && Loading(m.State(), m.nIdCount)
    modifies m
    ensures m.State() == TriedEntry(old(m.State()), e).(nTried := old(m.nTried))
    ensures lost == old(m.nTried) - TriedEntry(old(m.State()), e).nTried
  {
    var info := Restored(e, 0);
    var nKBucket := m.hash.TriedBucket(info.Service());
    var nKBucketPos := m.hash.TriedPos(info.Service());
    lost := 0;
    if m.vvTried[nKBucket][nKBucketPos] == EMPTY {
      info := info.(randomPos := |m.vRandom|, inTried := true);
      m.vRandom := m.vRandom + [m.nIdCount];
      m.mapInfo := m.mapInfo[m.nIdCount := info];
      m.mapAddr := m.mapAddr[info.Net() := m.nIdCount];
      m.vvTried := SetCell(m.vvTried, nKBucket, nKBucketPos, m.nIdCount);
      m.nIdCount := m.nIdCount + 1;
    } else {
      lost := 1;
    }
  }

  method ReadPosition(m: AddrMan, bucket: nat, nIndex: int, usable: bool)
    requires m.nIdCount >= 0 && Loading(m.State(), m.nIdCount) && m.nNew <= m.nIdCount
    requires usable ==> bucket < NEW_BUCKET_COUNT
    modifies m
    ensures m.State() == Position(old(m.State()), bucket, nIndex, usable)
  {
    if 0 <= nIndex < m.nNew {
      var info := m.mapInfo[nIndex];
      var nUBucketPos := m.hash.NewPos(info.Service(), bucket);
      if usable && m.vvNew[bucket][nUBucketPos] == EMPTY && info.refCount < NEW_BUCKETS_PER_ADDRESS {
        m.mapInfo := m.mapInfo[nIndex := info.(refCount := info.refCount + 1)];
        m.vvNew := SetCell(m.vvNew, bucket, nUBucketPos, nIndex);
      }
    }
  }

  method ReadBucket(m: AddrMan, bucket: nat, list: seq<int>, usable: bool)
    requires m.nIdCount >= 0 && Loading(m.State(), m.nIdCount) && m.nNew <= m.nIdCount
    requires usable ==> bucket < NEW_BUCKET_COUNT
    modifies m
    ensures m.State() == LoadBucket(old(m.State()), bucket, list, usable)
  {
    hide Position, Loading;
    ghost var s := m.State();
    for n := 0 to |list|
      invariant m.State() == LoadBucket(s, bucket, list[..n], usable)
    {
      assert list[..n + 1][..n] == list[..n];
      ReadPosition(m, bucket, list[n], usable);
    }
    assert list[..|list|] == list;
  }

  method ReadEntries(m: AddrMan, st: Stream, usable: bool)
    requires Loading(m.State(), 0) && m.nNew == |st.news|
    modifies m
    ensures m.State() == LoadTried(LoadNew(old(m.State()), st.news, !usable).(idCount := |st.news|), st.trieds)
  {
    hide NewEntry, TriedEntry, Loading;
    ghost var s := m.State();
    for n := 0 to |st.news|
      invariant m.State() == LoadNew(s, st.news[..n], !usable) && Loading(m.State(), n)
    {
      assert st.news[..n + 1][..n] == st.news[..n];
      ReadNew(m, n, st.news[n], !usable);
    }
    assert st.news[..|st.news|] == st.news;
    m.nIdCount := |st.news|;
    ghost var s1 := m.State();
    LoadingCount(LoadNew(s, st.news, !usable), |st.news|, |st.news|);
    var nLost := 0;
    for n := 0 to |st.trieds|
      invariant m.State() == LoadTried(s1, st.trieds[..n]).(nTried := m.nTried)
      invariant m.nTried - nLost == LoadTried(s1, st.trieds[..n]).nTried
    {
      assert st.trieds[..n + 1][..n] == st.trieds[..n];
      ghost var before := LoadTried(s1, st.trieds[..n]);
      TriedCount(before, m.nTried, st.trieds[n]);
      var lost := ReadTried(m, st.trieds[n]);
      nLost := nLost + lost;
    }
    assert st.trieds[..|st.trieds|] == st.trieds;
    m.nTried := m.nTried - nLost;
  }

  lemma LoadingCount(s: S.Book, k: nat, idCount: int)
    requires Loading(s, k)
    ensures Loading(s.(idCount := idCount), k)
  {
  }

  /** The count of tried records is only adjusted at the end. */
  lemma TriedCount(s: S.Book, nTried: int, e: Saved)
    requires s.idCount >= 0 && Loading(s, s.idCount)
    ensures Loading(s.(nTried := nTried), s.idCount)
    ensures TriedEntry(s.(nTried := nTried), e) == TriedEntry(s, e).(nTried :=
        nTried - s.nTried + TriedEntry(s, e).nTried)
  {
  }

  method PruneAll(m: AddrMan)
    requires RandomIndex(m.mapInfo, m.vRandom) && m.nIdCount >= 0
    modifies m
    ensures m.State() == Prune(old(m.State()), old(m.nIdCount))
  {
    hide RandomIndex, S.Forget;
    ghost var s := m.State();
    var end := m.nIdCount;
    for n := 0 to end
      invariant m.State() == Prune(s, n) && RandomIndex(m.mapInfo, m.vRandom)
    {
      if n in m.mapInfo && !m.mapInfo[n].inTried && m.mapInfo[n].refCount == 0 {
        S.ForgetKeepsRandom(m.State(), n);
        m.Delete(n);
      }
    }
  }

  /** Reads a stream into a newly constructed manager. */
  method Unserialize(st: Stream) returns (ok: bool, m: AddrMan)
    ensures fresh(m)
    ensures ok <==> Load(st).Loaded?
    ensures ok ==> m.State() == Load(st).book
  {
    hide LoadNew, LoadTried, LoadBucket, Prune, Loading, RandomIndex;
    m := new AddrMan(st.key);
    if st.keySize != KEY_SIZE { return false, m; }
    var nUBuckets := st.buckets;
    if st.version != 0 { nUBuckets := Flip(nUBuckets); }
    if st.nNew > NEW_BUCKET_COUNT * BUCKET_SIZE { return false, m; }
    if st.nTried > TRIED_BUCKET_COUNT * BUCKET_SIZE { return false, m; }
    if |st.news| != st.nNew || |st.trieds| != st.nTried || |st.places| != nUBuckets { return false, m; }
    m.nNew, m.nTried := st.nNew, st.nTried;
    var usable := st.version == 1 && nUBuckets == NEW_BUCKET_COUNT;
    ghost var s0 := m.State();
    StartLoading(st.key, st.nNew, st.nTried);
    ReadEntries(m, st, usable);
    ghost var s2 := m.State();
    LoadingCount(LoadNew(s0, st.news, !usable), |st.news|, |st.news|);
    for bucket := 0 to |st.places|
      invariant m.State() == LoadBuckets(s2, st.places[..bucket], usable)
    {
      assert st.places[..bucket + 1][..bucket] == st.places[..bucket];
      ReadBucket(m, bucket, st.places[bucket], usable);
    }
    assert st.places[..|st.places|] == st.places;
    LoadedOrder(m.State(), m.nIdCount);
    PruneAll(m);
    ok := true;
  }

  lemma StartLoading(key: Hashing, nNew: int, nTried: int)
    ensures Loading(S.NewBook(key).(nNew := nNew, nTried := nTried), 0)
  {
  }

  lemma LoadedOrder(s: S.Book, k: nat)
    requires Loading(s, k)
    ensures RandomIndex(s.info, s.random)
  {
  }

  /** A manager saved and read back is the same up to the renaming of ids. */
  method SaveAndLoad(m: AddrMan) returns (copy: AddrMan)
    requires S.Valid(m.State())
    ensures fresh(copy) && S.Valid(copy.State())
    ensures m.nIdCount >= 0 && Listing(m.State(), AllIds(m.State()))
    ensures Renames(m.State(), copy.State(), AllIds(m.State()))
  {
    hide S.Structure, Listing, Renames, AllIds, Load, Save;
    var st := Serialize(m);
    LoadSave(m.State());
    SaveFacts(m.State());
    var ok;
    ok, copy := Unserialize(st);
  }
}
